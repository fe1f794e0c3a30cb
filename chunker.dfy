/** `_chunk_text` of the Chatterbox backend, on its fallback path: the text
    is cut into sentences at every `.`, and the stripped, non-blank
    sentences are packed greedily into chunks of at most 280 characters. */
module Chunker {
  import opened PyStr

  /** Longest chunk handed to the synthesiser. */
  const MaxChunk := 280
  /** An accumulator shorter than this is never flushed on its own. */
  const MinChunk := 20

  /** `text.replace("\n", " ").split(".")` */
  function Sentences(text: string): seq<string> {
    SplitChar(ReplaceChar(text, '\n', ' '), '.')
  }

  /** The loop state: the chunks emitted so far and the accumulator `current`. */
  datatype Acc = Acc(chunks: seq<string>, current: string)

  /** The inner `while`: cut 280-character slices off the front of `current`. */
  function Drain(a: Acc): Acc
    decreases |a.current|
  {
    if |a.current| > MaxChunk then
      Drain(Acc(a.chunks + [a.current[..MaxChunk]], a.current[MaxChunk..]))
    else a
  }

  /** `f"{current} {sent}".strip()` */
  function Join(current: string, sent: string): string {
    Strip(current + " " + sent)
  }

  /** One iteration of the outer loop on the raw sentence `raw`. */
  function Absorb(a: Acc, raw: string): Acc {
    var sent := Strip(raw);
    if sent == "" then a
    else if |a.current| + |sent| + 1 <= MaxChunk then Drain(Acc(a.chunks, Join(a.current, sent)))
    else if |a.current| >= MinChunk then Drain(Acc(a.chunks + [a.current], sent))
    else Drain(Acc(a.chunks, Join(a.current, sent)))
  }

  /** The state after the outer loop has consumed `sents`. */
  function Pack(sents: seq<string>): Acc {
    if sents == [] then Acc([], "") else Absorb(Pack(sents[..|sents| - 1]), sents[|sents| - 1])
  }

  /** One more sentence is one more `Absorb`. */
  lemma PackStep(sents: seq<string>, k: nat)
    requires k < |sents|
    ensures Pack(sents[..k + 1]) == Absorb(Pack(sents[..k]), sents[k])
  {
    assert sents[..k + 1][..k] == sents[..k];
  }

  /** What `_chunk_text` returns: the packed chunks, then a non-empty remainder. */
  function Chunks(text: string): seq<string> {
    var a := Pack(Sentences(text));
    if a.current != "" then a.chunks + [a.current] else a.chunks
  }

  /** `_chunk_text(text)` with the nltk tokenizer unavailable. */
  method ChunkText(text: string) returns (chunks: seq<string>)
    ensures chunks == Chunks(text)
    ensures forall i :: 0 <= i < |chunks| ==> 0 < |chunks[i]| <= MaxChunk
    ensures forall i :: 0 <= i < |chunks| - 1 ==> MinChunk <= |chunks[i]|
    ensures DelSpace(Concat(chunks)) == DelSpace(DelChar(text, '.'))
    ensures chunks == [] <==> DelSpace(DelChar(text, '.')) == ""
  {
    var current;
    chunks, current := PackLoop(Sentences(text));
    if current != "" {
      chunks := chunks + [current];
    }
    ChunksBounded(text);
    ChunksKeepContent(text);
    ChunksEmptyIff(text);
  }

  /** The outer `for` loop of `_chunk_text` over the sentences and its inner
      `while`, leaving the emitted chunks and the accumulator. */
  method PackLoop(sentences: seq<string>) returns (chunks: seq<string>, current: string)
    ensures Acc(chunks, current) == Pack(sentences)
  {
    chunks, current := [], "";
    for k := 0 to |sentences|
      invariant Acc(chunks, current) == Pack(sentences[..k])
    {
      PackStep(sentences, k);
      var sent := Strip(sentences[k]);
      if sent == "" {
        continue;
      }
      if |current| + |sent| + 1 <= MaxChunk {
        current := Join(current, sent);
      } else if |current| >= MinChunk {
        chunks := chunks + [current];
        current := sent;
      } else {
        current := Join(current, sent);
      }
      ghost var target := Drain(Acc(chunks, current));
      while |current| > MaxChunk
        invariant Drain(Acc(chunks, current)) == target
        decreases |current|
      {
        chunks := chunks + [current[..MaxChunk]];
        current := current[MaxChunk..];
      }
    }
    assert sentences[..|sentences|] == sentences;
  }

  // ---------------------------------------------------------------------
  // Bounds

  /** Flushing an accumulator of 20 to 280 characters and draining the new
      sentence keeps the bounds. */
  lemma FlushBounded(a: Acc, sent: string)
    requires Bounded(a) && MinChunk <= |a.current|
    ensures Bounded(Drain(Acc(a.chunks + [a.current], sent)))
  {
    var cs := a.chunks + [a.current];
    assert forall i :: 0 <= i < |cs| ==> cs[i] == if i < |a.chunks| then a.chunks[i] else a.current;
    DrainBounded(Acc(cs, sent));
  }

  /** Every emitted chunk has between 20 and 280 characters, and the
      accumulator never exceeds 280. */
  ghost predicate Bounded(a: Acc) {
    && |a.current| <= MaxChunk
    && forall i :: 0 <= i < |a.chunks| ==> MinChunk <= |a.chunks[i]| <= MaxChunk
  }

  /** The inner loop keeps the chunks already emitted, adds only
      280-character slices, and leaves at most 280 characters. */
  lemma {:induction false} DrainSlices(a: Acc)
    ensures var d := Drain(a);
      && |a.chunks| <= |d.chunks| && d.chunks[..|a.chunks|] == a.chunks
      && (forall i :: |a.chunks| <= i < |d.chunks| ==> |d.chunks[i]| == MaxChunk)
      && |d.current| <= MaxChunk
    decreases |a.current|
  {
    if |a.current| > MaxChunk {
      var b := Acc(a.chunks + [a.current[..MaxChunk]], a.current[MaxChunk..]);
      DrainSlices(b);
      var d := Drain(b);
      assert d.chunks[..|a.chunks|] == d.chunks[..|b.chunks|][..|a.chunks|];
      assert d.chunks[|a.chunks|] == d.chunks[..|b.chunks|][|a.chunks|] == a.current[..MaxChunk];
    }
  }

  lemma {:induction false} DrainBounded(a: Acc)
    requires forall i :: 0 <= i < |a.chunks| ==> MinChunk <= |a.chunks[i]| <= MaxChunk
    ensures Bounded(Drain(a))
    decreases |a.current|
  {
    if |a.current| > MaxChunk {
      DrainBounded(Acc(a.chunks + [a.current[..MaxChunk]], a.current[MaxChunk..]));
    }
  }

  lemma AbsorbBounded(a: Acc, raw: string)
    requires Bounded(a)
    ensures Bounded(Absorb(a, raw))
  {
    var sent := Strip(raw);
    if sent != "" {
      if |a.current| + |sent| + 1 <= MaxChunk {
        assert Absorb(a, raw) == Drain(Acc(a.chunks, Join(a.current, sent)));
        DrainBounded(Acc(a.chunks, Join(a.current, sent)));
      } else if |a.current| >= MinChunk {
        assert Absorb(a, raw) == Drain(Acc(a.chunks + [a.current], sent));
        FlushBounded(a, sent);
      } else {
        assert Absorb(a, raw) == Drain(Acc(a.chunks, Join(a.current, sent)));
        DrainBounded(Acc(a.chunks, Join(a.current, sent)));
      }
    } else {
      assert Absorb(a, raw) == a;
    }
  }

  lemma {:induction false} PackBounded(sents: seq<string>)
    ensures Bounded(Pack(sents))
  {
    if sents != [] {
      PackBounded(sents[..|sents| - 1]);
      AbsorbBounded(Pack(sents[..|sents| - 1]), sents[|sents| - 1]);
    }
  }

  /** No chunk is empty or longer than 280 characters, and only the last one
      may be shorter than 20: every earlier chunk was flushed because the
      next sentence did not fit (and then had at least 20 characters) or is
      a 280-character slice of an over-long accumulator. */
  lemma ChunksBounded(text: string)
    ensures forall i :: 0 <= i < |Chunks(text)| ==> 0 < |Chunks(text)[i]| <= MaxChunk
    ensures forall i :: 0 <= i < |Chunks(text)| - 1 ==> MinChunk <= |Chunks(text)[i]|
  {
    var a := Pack(Sentences(text));
    PackBounded(Sentences(text));
    var cs := Chunks(text);
    assert cs == if a.current != "" then a.chunks + [a.current] else a.chunks;
    forall i | 0 <= i < |cs| ensures 0 < |cs[i]| <= MaxChunk && (i < |cs| - 1 ==> MinChunk <= |cs[i]|) {
      if i < |a.chunks| {
        assert cs[i] == a.chunks[i];
      }
    }
  }

  // ---------------------------------------------------------------------
  // Content preservation

  /** What the chunks and the accumulator hold together, whitespace deleted. */
  function Content(a: Acc): string {
    DelSpace(Concat(a.chunks) + a.current)
  }

  lemma {:induction false} DrainContent(a: Acc)
    ensures Content(Drain(a)) == Content(a)
    decreases |a.current|
  {
    if |a.current| > MaxChunk {
      var head, tail := a.current[..MaxChunk], a.current[MaxChunk..];
      ConcatSnoc(a.chunks, head);
      assert Concat(a.chunks + [head]) + tail == Concat(a.chunks) + a.current by {
        assert head + tail == a.current;
      }
      DrainContent(Acc(a.chunks + [head], tail));
    }
  }

  /** Joining two pieces with a space and stripping keeps their content. */
  lemma JoinContent(chunks: seq<string>, current: string, sent: string)
    ensures DelSpace(Concat(chunks) + Join(current, sent))
         == DelSpace(Concat(chunks) + current) + DelSpace(sent)
  {
    var c := Concat(chunks);
    var j := current + " " + sent;
    calc {
      DelSpace(c + Join(current, sent));
    == { WithoutAppend(c, Join(current, sent), IsSpace); }
      DelSpace(c) + DelSpace(Strip(j));
    == { StripKeepsContent(j); }
      DelSpace(c) + DelSpace(j);
    == { SpacedContent(current, sent); }
      DelSpace(c) + DelSpace(current) + DelSpace(sent);
    == { WithoutAppend(c, current, IsSpace); }
      DelSpace(c + current) + DelSpace(sent);
    }
  }

  /** The space put between two pieces is not content. */
  lemma SpacedContent(a: string, b: string)
    ensures DelSpace(a + " " + b) == DelSpace(a) + DelSpace(b)
  {
    WithoutAppend(a + " ", b, IsSpace);
    WithoutAppend(a, " ", IsSpace);
    assert DelSpace(" ") == "";
  }

  lemma {:induction false} PackContent(sents: seq<string>)
    ensures Content(Pack(sents)) == DelSpace(Concat(sents))
  {
    if sents == [] {
      assert Content(Acc([], "")) == DelSpace("");
    } else {
      var init, raw := sents[..|sents| - 1], sents[|sents| - 1];
      assert sents == init + [raw];
      var a := Pack(init);
      PackContent(init);
      ConcatSnoc(init, raw);
      WithoutAppend(Concat(init), raw, IsSpace);
      var sent := Strip(raw);
      StripKeepsContent(raw);
      if sent == "" {
        StripEmptyIff(raw);
        assert Content(a) + DelSpace(raw) == Content(a);
      } else if |a.current| + |sent| + 1 <= MaxChunk || |a.current| < MinChunk {
        JoinContent(a.chunks, a.current, sent);
        DrainContent(Acc(a.chunks, Join(a.current, sent)));
      } else {
        ConcatSnoc(a.chunks, a.current);
        WithoutAppend(Concat(a.chunks) + a.current, sent, IsSpace);
        DrainContent(Acc(a.chunks + [a.current], sent));
      }
    }
  }

  /** Whitespace aside, `text` with whitespace and `.` deleted.  */
  lemma SentencesContent(text: string)
    ensures DelSpace(Concat(Sentences(text))) == DelSpace(DelChar(text, '.'))
  {
    var t := ReplaceChar(text, '\n', ' ');
    SplitCharConcat(t, '.');
    ReplaceKeepsContent(text);
  }

  /** Turning newlines into spaces changes nothing once `.` and whitespace are deleted. */
  lemma {:induction false} ReplaceKeepsContent(s: string)
    ensures DelSpace(DelChar(ReplaceChar(s, '\n', ' '), '.')) == DelSpace(DelChar(s, '.'))
    decreases |s|
  {
    if s != "" {
      ReplaceKeepsContent(s[1..]);
      var r := ReplaceChar(s, '\n', ' ');
      assert r[1..] == ReplaceChar(s[1..], '\n', ' ');
      var d, e := DelChar(r, '.'), DelChar(s, '.');
      assert d == (if r[0] == '.' then "" else [r[0]]) + DelChar(r[1..], '.');
      assert e == (if s[0] == '.' then "" else [s[0]]) + DelChar(s[1..], '.');
      WithoutAppend(if r[0] == '.' then "" else [r[0]], DelChar(r[1..], '.'), IsSpace);
      WithoutAppend(if s[0] == '.' then "" else [s[0]], DelChar(s[1..], '.'), IsSpace);
    }
  }

  /** Content preservation: concatenating the chunks and deleting whitespace
      gives the input with whitespace and `.` deleted, in the same order. */
  lemma ChunksKeepContent(text: string)
    ensures DelSpace(Concat(Chunks(text))) == DelSpace(DelChar(text, '.'))
  {
    var a := Pack(Sentences(text));
    PackContent(Sentences(text));
    SentencesContent(text);
    if a.current != "" {
      ConcatSnoc(a.chunks, a.current);
    } else {
      assert Concat(a.chunks) + a.current == Concat(a.chunks);
    }
  }

  // ---------------------------------------------------------------------
  // Blank input

  lemma {:induction false} PackBlank(sents: seq<string>)
    requires forall i :: 0 <= i < |sents| ==> DelSpace(sents[i]) == ""
    ensures Pack(sents) == Acc([], "")
  {
    if sents != [] {
      PackBlank(sents[..|sents| - 1]);
      StripEmptyIff(sents[|sents| - 1]);
    }
  }

  lemma {:induction false} ConcatBlank(ss: seq<string>)
    requires DelSpace(Concat(ss)) == ""
    ensures forall i :: 0 <= i < |ss| ==> DelSpace(ss[i]) == ""
    decreases |ss|
  {
    if ss != [] {
      WithoutAppend(ss[0], Concat(ss[1..]), IsSpace);
      ConcatBlank(ss[1..]);
      forall i | 0 <= i < |ss| ensures DelSpace(ss[i]) == "" {
        if i > 0 { assert ss[i] == ss[1..][i - 1]; }
      }
    }
  }

  /** The text yields no chunk exactly when it consists of whitespace and `.` only. */
  lemma ChunksEmptyIff(text: string)
    ensures Chunks(text) == [] <==> DelSpace(DelChar(text, '.')) == ""
  {
    ChunksKeepContent(text);
    if DelSpace(DelChar(text, '.')) == "" {
      SentencesContent(text);
      ConcatBlank(Sentences(text));
      PackBlank(Sentences(text));
    }
  }

  /** The accumulator is empty or ends with a non-blank character; it may
      start with whitespace, left over from cutting a slice off the front. */
  predicate EndsSolid(s: string) {
    s == "" || !IsSpace(s[|s| - 1])
  }

  lemma {:induction false} DrainEndsSolid(a: Acc)
    requires EndsSolid(a.current)
    ensures EndsSolid(Drain(a).current)
    decreases |a.current|
  {
    if |a.current| > MaxChunk {
      var tail := a.current[MaxChunk..];
      assert tail[|tail| - 1] == a.current[|a.current| - 1];
      DrainEndsSolid(Acc(a.chunks + [a.current[..MaxChunk]], tail));
    }
  }

  lemma {:induction false} PackEndsSolid(sents: seq<string>)
    ensures EndsSolid(Pack(sents).current)
  {
    if sents != [] {
      var a, raw := Pack(sents[..|sents| - 1]), sents[|sents| - 1];
      PackEndsSolid(sents[..|sents| - 1]);
      var sent := Strip(raw);
      StripIsStripped(raw);
      StripIsStripped(a.current + " " + sent);
      if sent != "" {
        if |a.current| + |sent| + 1 <= MaxChunk || |a.current| < MinChunk {
          DrainEndsSolid(Acc(a.chunks, Join(a.current, sent)));
        } else {
          DrainEndsSolid(Acc(a.chunks + [a.current], sent));
        }
      }
    }
  }

  /** Joining a sentence onto the accumulator: a sentence onto an empty
      accumulator is taken as it is; otherwise the accumulator loses its
      leading whitespace and the two are joined by exactly one space. */
  lemma JoinStripped(current: string, sent: string)
    requires EndsSolid(current) && IsStripped(sent) && sent != ""
    ensures Join(current, sent) == if current == "" then sent else LStrip(current) + " " + sent
    ensures IsStripped(current) ==> Join(current, sent) == if current == "" then sent else current + " " + sent
  {
    if current == "" {
      JoinEmpty(sent);
    } else {
      JoinSolid(current, sent);
      if IsStripped(current) {
        StripStripped(current);
        LStripStripped(current);
      }
    }
  }

  lemma JoinEmpty(sent: string)
    requires IsStripped(sent) && sent != ""
    ensures Join("", sent) == sent
  {
    var j := "" + " " + sent;
    assert j[0] == ' ' && j[1..] == sent;
    assert LStrip(j) == LStrip(sent);
    LStripStripped(sent);
    RStripSolid(sent);
  }

  lemma JoinSolid(current: string, sent: string)
    requires current != "" && !IsSpace(current[|current| - 1]) && sent != "" && !IsSpace(sent[|sent| - 1])
    ensures Join(current, sent) == LStrip(current) + " " + sent
  {
    LStripSolid(current);
    SpacedAssoc(current, sent);
    LStripAppend(current, " " + sent);
    var l := LStrip(current) + " " + sent;
    SpacedAssoc(LStrip(current), sent);
    assert l[|l| - 1] == sent[|sent| - 1];
    RStripSolid(l);
  }

  lemma SpacedAssoc(a: string, b: string)
    ensures a + " " + b == a + (" " + b)
  {
  }

  lemma LStripStripped(s: string)
    requires s != "" && !IsSpace(s[0])
    ensures LStrip(s) == s
  {
  }

  /** The join the outer loop performs, on the accumulator it really has:
      when a non-blank sentence fits, or the accumulator is too short to
      flush, the sentence is appended after one space to the accumulator
      with its leading whitespace removed. */
  lemma PackJoins(sents: seq<string>, raw: string)
    requires Strip(raw) != ""
    requires var a := Pack(sents); |a.current| + |Strip(raw)| + 1 <= MaxChunk || |a.current| < MinChunk
    ensures var a, sent := Pack(sents), Strip(raw);
      Absorb(a, raw) == Drain(Acc(a.chunks, if a.current == "" then sent else LStrip(a.current) + " " + sent))
  {
    PackEndsSolid(sents);
    StripIsStripped(raw);
    JoinStripped(Pack(sents).current, Strip(raw));
  }
}
