/** Resolution of placeholders across the fields of one request
    (utility/RequestVariableResolver.java): variable sources merged with later ones
    winning, and every key and value of a map resolved. */
module Resolution {
  import opened Wrappers
  import opened JavaText
  import opened VariableReplacer
  import opened StringMaps

  /** `mergeVariables(base, overriding)`: a fresh map with every key of both; on a
      collision the overriding value wins; a null or empty argument adds nothing. */
  method MergeVariables(base: Option<map<string, string>>, overriding: Option<map<string, string>>)
    returns (merged: map<string, string>)
    ensures merged.Keys == base.GetOr(map[]).Keys + overriding.GetOr(map[]).Keys
    ensures forall k :: k in merged ==> merged[k] == if k in overriding.GetOr(map[]) then overriding.GetOr(map[])[k] else base.GetOr(map[])[k]
  {
    merged := map[];
    if base.Some? && base.value != map[] {
      merged := Overlay(merged, base.value);
    }
    if overriding.Some? && overriding.value != map[] {
      merged := Overlay(merged, overriding.value);
    }
  }

  /** One entry of the map given to `resolveMap`, in the map's iteration order; either side may be null. */
  type Entry = (Option<string>, Option<string>)

  /** The replacement of one text under `vars`, as a function value. */
  function Replacer(vars: map<string, string>): string -> string {
    s => Replaced(s, vars)
  }

  /** The entry survives: its key is non-null and does not resolve to a blank string. */
  predicate Kept(resolve: string -> string, e: Entry) {
    e.0.Some? && !IsBlankTrim(resolve(e.0.value))
  }

  function KeyOf(resolve: string -> string, e: Entry): string
    requires e.0.Some?
  {
    resolve(e.0.value)
  }

  /** A resolved value; a null value becomes the empty string. */
  function ValueOf(resolve: string -> string, e: Entry): string {
    if e.1.None? then "" else resolve(e.1.value)
  }

  /** The map `resolveMap` fills, one surviving entry after the other, each text passed through `resolve`. */
  function ResolveAll(resolve: string -> string, entries: seq<Entry>): map<string, string>
    decreases |entries|
  {
    if entries == [] then map[]
    else
      var last := entries[|entries| - 1];
      var r := ResolveAll(resolve, entries[..|entries| - 1]);
      if Kept(resolve, last) then r[KeyOf(resolve, last) := ValueOf(resolve, last)] else r
  }

  lemma ResolveAllStep(resolve: string -> string, entries: seq<Entry>, i: nat)
    requires i < |entries|
    ensures ResolveAll(resolve, entries[..i + 1])
            == if Kept(resolve, entries[i]) then ResolveAll(resolve, entries[..i])[KeyOf(resolve, entries[i]) := ValueOf(resolve, entries[i])]
               else ResolveAll(resolve, entries[..i])
  {
    assert entries[..i + 1][..i] == entries[..i];
  }

  /** The keys of the resolved map: exactly the resolved keys that are not blank, stored untrimmed. */
  lemma {:induction false} ResolveAllKeys(resolve: string -> string, entries: seq<Entry>, k: string)
    ensures k in ResolveAll(resolve, entries)
        <==> !IsBlankTrim(k) && exists i :: 0 <= i < |entries| && entries[i].0.Some? && resolve(entries[i].0.value) == k
  {
    if entries != [] {
      var init := entries[..|entries| - 1];
      ResolveAllKeys(resolve, init, k);
      if exists i :: 0 <= i < |init| && init[i].0.Some? && resolve(init[i].0.value) == k {
        var i :| 0 <= i < |init| && init[i].0.Some? && resolve(init[i].0.value) == k;
        assert entries[i] == init[i];
      }
      if exists i :: 0 <= i < |entries| && entries[i].0.Some? && resolve(entries[i].0.value) == k {
        var i :| 0 <= i < |entries| && entries[i].0.Some? && resolve(entries[i].0.value) == k;
        if i < |init| {
          assert init[i] == entries[i];
        }
      }
    }
  }

  /** The last surviving entry with a given resolved key decides its value. */
  lemma {:induction false} ResolveAllLast(resolve: string -> string, entries: seq<Entry>, i: nat)
    requires i < |entries| && Kept(resolve, entries[i])
    requires forall j :: i < j < |entries| && Kept(resolve, entries[j]) ==> KeyOf(resolve, entries[j]) != KeyOf(resolve, entries[i])
    ensures KeyOf(resolve, entries[i]) in ResolveAll(resolve, entries)
    ensures ResolveAll(resolve, entries)[KeyOf(resolve, entries[i])] == ValueOf(resolve, entries[i])
  {
    var init := entries[..|entries| - 1];
    if i < |init| {
      forall j | i < j < |init| && Kept(resolve, init[j]) ensures KeyOf(resolve, init[j]) != KeyOf(resolve, init[i]) {
        assert init[j] == entries[j];
      }
      ResolveAllLast(resolve, init, i);
    }
  }

  /** `RequestVariableResolver`: holds its own copy of the variables. */
  class RequestVariableResolver {
    const variables: map<string, string>

    /** A null or empty map gives an empty resolver. */
    constructor (vars: Option<map<string, string>>)
      ensures variables == vars.GetOr(map[])
    {
      if vars.None? || vars.value == map[] {
        variables := map[];
      } else {
        variables := vars.value;
      }
    }

    /** `resolve(text)`: its shortcuts (null or empty text, no variables, no placeholder)
        all return what replacement would, so it is exactly `replaceVariables`. */
    method Resolve(text: Option<string>) returns (r: Option<string>)
      ensures text.None? ==> r.None?
      ensures text.Some? ==> r == Some(Replaced(text.value, variables))
    {
      if text.None? || text.value == [] || variables == map[] || !ContainsVariables(text) {
        if text.Some? && text.value != [] {
          if variables == map[] {
            ReplacedWithoutVariables(text.value, variables);
          } else {
            NoVariablesNoChange(text.value, variables);
          }
        }
        return text;
      }
      r := ReplaceVariables(text, Some(variables));
    }

    /** `resolveMap(original)`: key and value of every entry resolved; an entry whose
        key is null or resolves blank is dropped; a null value is stored as "". */
    method ResolveMap(original: Option<seq<Entry>>) returns (r: map<string, string>)
      ensures r == ResolveAll(Replacer(variables), original.GetOr([]))
    {
      r := map[];
      if original.None? || original.value == [] {
        return;
      }
      var entries := original.value;
      for i := 0 to |entries|
        invariant r == ResolveAll(Replacer(variables), entries[..i])
      {
        ResolveAllStep(Replacer(variables), entries, i);
        var key := Resolve(entries[i].0);
        var value := Resolve(entries[i].1);
        assert value.GetOr("") == ValueOf(Replacer(variables), entries[i]);
        if key.None? || IsBlankTrim(key.value) {
          continue;
        }
        assert key.value == KeyOf(Replacer(variables), entries[i]);
        r := r[key.value := value.GetOr("")];
      }
      assert entries[..|entries|] == entries;
    }
  }
}
