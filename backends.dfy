/** The backend registry: a dictionary from backend name to the function
    that synthesises speech with that backend, and the listing of its
    names. */
module Backends {
  import opened PyStr

  /** The synthesis entry points the registry can name. */
  datatype Entrypoint = PyttsxSynthesizeToFile

  /** `BACKENDS`, its entries in insertion order. */
  const Registry: seq<(string, Entrypoint)> := [("pyttsx3", PyttsxSynthesizeToFile)]

  /** The keys of a dictionary, in insertion order. */
  function Keys<V>(entries: seq<(string, V)>): (r: seq<string>)
    ensures |r| == |entries|
    ensures forall i :: 0 <= i < |entries| ==> r[i] == entries[i].0
  {
    if entries == [] then [] else Keys(entries[..|entries| - 1]) + [entries[|entries| - 1].0]
  }

  /** A dictionary holds each key once. */
  predicate DistinctKeys<V>(entries: seq<(string, V)>) {
    forall i, j :: 0 <= i < j < |entries| ==> entries[i].0 != entries[j].0
  }

  /** `entries[name]`, `None` standing for the `KeyError`: the last entry
      with that name wins. This is the lookup `JsonValue.Get` performs on a
      JSON object's members, stated here for entries of any value type so
      that the registry does not depend on the JSON model. */
  function Lookup<V>(entries: seq<(string, V)>, name: string): (r: Option<V>)
    ensures r.None? <==> forall i :: 0 <= i < |entries| ==> entries[i].0 != name
    ensures r.Some? ==> exists i :: 0 <= i < |entries| && entries[i] == (name, r.value)
  {
    if entries == [] then None
    else if entries[|entries| - 1].0 == name then Some(entries[|entries| - 1].1)
    else Lookup(entries[..|entries| - 1], name)
  }

  /** `available_backends()` */
  function AvailableBackends(): (names: seq<string>)
    ensures names == ["pyttsx3"]
  {
    Keys(Registry)
  }

  /** The keys of a dictionary list every name it maps exactly once. */
  lemma KeysOfDictionary<V>(entries: seq<(string, V)>)
    requires DistinctKeys(entries)
    ensures var ks := Keys(entries);
      && (forall name :: name in ks <==> Lookup(entries, name).Some?)
      && (forall i, j :: 0 <= i < j < |ks| ==> ks[i] != ks[j])
  {
    var ks := Keys(entries);
    forall name ensures name in ks <==> Lookup(entries, name).Some? {
      if name in ks {
        var i :| 0 <= i < |ks| && ks[i] == name;
        assert entries[i].0 == name;
      }
    }
  }

  /** `available_backends()` lists exactly the registered backends, each
      once (`KeysOfDictionary`) and in registration order: here only
      `pyttsx3`. */
  lemma AvailableBackendsSpec()
    ensures var names := AvailableBackends();
      && names == ["pyttsx3"]
      && DistinctKeys(Registry)
      && (forall name :: name in names <==> Lookup(Registry, name).Some?)
  {
    assert DistinctKeys(Registry);
    KeysOfDictionary(Registry);
  }

  /** `pyttsx3` is served by the pyttsx `synthesize_to_file`. */
  lemma PyttsxRegistered()
    ensures Lookup(Registry, "pyttsx3") == Some(PyttsxSynthesizeToFile)
  {
  }
}
