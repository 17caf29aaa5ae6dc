/** The props record of one render, the hook's options, and the removal of the
    ignored keys before comparison (`getFilteredProps`). */
module Filtering {
  import opened Wrappers
  import opened Values

  /** The props object passed to one render of a monitored component. */
  type Props = map<Key, Value>

  /** `RenderPeekOptions`: its one recognised option is the list of keys to
      leave out of the comparison; the list itself may be absent. */
  datatype RenderPeekOptions = RenderPeekOptions(ignoreKeys: Option<seq<Key>>)

  /** True when filtering has nothing to do: no options object, no
      `ignoreKeys`, or an empty list. */
  predicate FiltersNothing(options: Option<RenderPeekOptions>)
  {
    || options.None?
    || options.value.ignoreKeys.None?
    || |options.value.ignoreKeys.value| == 0
  }

  /** The keys the caller asked to ignore, as a set. */
  function IgnoredKeys(options: Option<RenderPeekOptions>): (ks: set<Key>)
    ensures FiltersNothing(options) ==> ks == {}
    ensures forall k :: k in ks <==>
      options.Some? && options.value.ignoreKeys.Some? && k in options.value.ignoreKeys.value
  {
    if options.Some? && options.value.ignoreKeys.Some?
    then set k | k in options.value.ignoreKeys.value
    else {}
  }

  /** `delete filtered[key]` for every key of the list, in order: the result
      lacks exactly the listed keys and keeps every other entry. Listing a
      key twice, or a key the record does not have, changes nothing more. */
  function DeleteEach(m: Props, keys: seq<Key>): (r: Props)
    ensures r.Keys == m.Keys - (set k | k in keys)
    ensures forall k :: k in r ==> r[k] == m[k]
    decreases |keys|
  {
    if |keys| == 0 then m
    else DeleteEach(m - {keys[0]}, keys[1..])
  }

  /** `getFilteredProps`: the props unchanged when there is nothing to ignore,
      otherwise a copy without the ignored keys in which every other key keeps
      its value. */
  function GetFilteredProps(p: Props, options: Option<RenderPeekOptions>): (r: Props)
    ensures FiltersNothing(options) ==> r == p
    ensures r.Keys == p.Keys - IgnoredKeys(options)
    ensures forall k :: k in r ==> r[k] == p[k]
  {
    if FiltersNothing(options) then p
    else DeleteEach(p, options.value.ignoreKeys.value)
  }

  /** `p` and `q` differ at most under the keys of `ignored`: outside it they
      have the same keys with the same values. */
  ghost predicate AgreeOutside(p: Props, q: Props, ignored: set<Key>)
  {
    forall k :: k !in ignored ==> (k in p <==> k in q) && (k in p ==> p[k] == q[k])
  }

  /** Ignoring keys the props do not have leaves the props as they are. */
  lemma IgnoringAbsentKeysKeepsProps(p: Props, options: Option<RenderPeekOptions>)
    requires IgnoredKeys(options) !! p.Keys
    ensures GetFilteredProps(p, options) == p
  {
    var r := GetFilteredProps(p, options);
    assert r.Keys == p.Keys;
  }

  /** Two props records have the same filtered view if and only if they differ
      only in ignored keys. */
  lemma FilteredViewsEqualIff(p: Props, q: Props, options: Option<RenderPeekOptions>)
    ensures GetFilteredProps(p, options) == GetFilteredProps(q, options)
            <==> AgreeOutside(p, q, IgnoredKeys(options))
  {
    var ignored := IgnoredKeys(options);
    var fp, fq := GetFilteredProps(p, options), GetFilteredProps(q, options);
    if fp == fq {
      forall k | k !in ignored
        ensures (k in p <==> k in q) && (k in p ==> p[k] == q[k])
      {
        assert k in p <==> k in fp;
        assert k in q <==> k in fq;
      }
    }
    if AgreeOutside(p, q, ignored) {
      assert fp.Keys == fq.Keys;
      forall k | k in fp
        ensures fp[k] == fq[k]
      {
        assert k !in ignored && k in p;
      }
    }
  }
}
