/**
 * The two library values the OAuth code manipulates: a URI, kept as its
 * raw components, and spiralcraft's VariableMap, a multi-valued form map
 * kept as an ordered list of (name, values) entries.  `Set` replaces the
 * values of a name (or appends a new entry), `Add` appends one value.
 * Iteration over the map is in insertion order.
 */
module Http {
  import opened Base

  /** An absolute URI: scheme, authority, raw path and optional raw query. */
  datatype Uri = Uri(scheme: string, authority: string, rawPath: string, rawQuery: Option<string>)

  /** URI.toString for the components kept here. */
  function UriText(u: Uri): string
  {
    u.scheme + "://" + u.authority + u.rawPath
      + (if u.rawQuery.Some? then "?" + u.rawQuery.value else "")
  }

  /** URIUtil.replaceRawQuery: the same URI with its raw query replaced. */
  function ReplaceRawQuery(u: Uri, query: string): (r: Uri)
    ensures r.scheme == u.scheme && r.authority == u.authority && r.rawPath == u.rawPath
    ensures r.rawQuery == Some(query)
  {
    u.(rawQuery := Some(query))
  }

  /**
   * One HTTP request as the session would issue it: the method, the target,
   * the Authorization header, the Content-Type and the form body.
   */
  datatype Request = Request(verb: string, target: Uri, authorization: Option<string>,
                             contentType: Option<string>, body: Option<VariableMap>)

  const FormContentType := "application/x-www-form-urlencoded"

  datatype Entry = Entry(name: string, values: seq<string>)

  datatype VariableMap = VariableMap(entries: seq<Entry>)

  const Empty := VariableMap([])

  /** The names of a map, in iteration order. */
  function Keys(m: VariableMap): (r: seq<string>)
    ensures |r| == |m.entries|
    ensures forall i :: 0 <= i < |r| ==> r[i] == m.entries[i].name
  {
    seq(|m.entries|, i requires 0 <= i < |m.entries| => m.entries[i].name)
  }

  /** Every name carries at least one value. */
  predicate NonEmptyValues(es: seq<Entry>)
  {
    forall i :: 0 <= i < |es| ==> |es[i].values| > 0
  }

  /** Each name occurs once and carries at least one value. */
  predicate WellFormed(m: VariableMap)
  {
    && (forall i, j :: 0 <= i < j < |m.entries| ==> m.entries[i].name != m.entries[j].name)
    && NonEmptyValues(m.entries)
  }

  /** All values of a name, in order; none when the name is absent. */
  function Values(m: VariableMap, name: string): seq<string>
  {
    var keys := Keys(m);
    if name in keys then m.entries[IndexOf(keys, name)].values else []
  }

  /** VariableMap.getFirst: the first value of a name, null when it has none. */
  function GetFirst(m: VariableMap, name: string): Option<string>
  {
    var vs := Values(m, name);
    if |vs| > 0 then Some(vs[0]) else None
  }

  /** In a well-formed map, the values of the i-th name are those of its entry. */
  lemma ValuesAt(m: VariableMap, i: nat)
    requires WellFormed(m) && i < |m.entries|
    ensures Values(m, m.entries[i].name) == m.entries[i].values
    ensures GetFirst(m, m.entries[i].name) == Some(m.entries[i].values[0])
  {
    var keys := Keys(m);
    assert keys[i] == m.entries[i].name;
    assert IndexOf(keys, keys[i]) == i;
  }

  /** A name of a map whose value lists are non-empty has a first value. */
  lemma KnownNameHasFirst(m: VariableMap, name: string)
    requires NonEmptyValues(m.entries) && name in Keys(m)
    ensures GetFirst(m, name) == Some(Values(m, name)[0])
  {
  }

  /** VariableMap.set: a known name gets the one value in its place, a new name is appended. */
  function Set(m: VariableMap, name: string, value: string): VariableMap
  {
    var keys := Keys(m);
    if name in keys then VariableMap(m.entries[IndexOf(keys, name) := Entry(name, [value])])
    else VariableMap(m.entries + [Entry(name, [value])])
  }

  /** VariableMap.add: one more value after those the name already has; a new name is appended. */
  function Add(m: VariableMap, name: string, value: string): VariableMap
  {
    var keys := Keys(m);
    if name in keys then
      var i := IndexOf(keys, name);
      VariableMap(m.entries[i := Entry(name, m.entries[i].values + [value])])
    else VariableMap(m.entries + [Entry(name, [value])])
  }

  /** A run of `set` calls, applied in order. */
  function SetAll(m: VariableMap, settings: seq<(string, string)>): VariableMap
    decreases |settings|
  {
    if settings == [] then m else SetAll(Set(m, settings[0].0, settings[0].1), settings[1..])
  }

  /** A run of `set` calls starts with its first call. */
  lemma SetAllStep(m: VariableMap, settings: seq<(string, string)>)
    requires settings != []
    ensures SetAll(m, settings) == SetAll(Set(m, settings[0].0, settings[0].1), settings[1..])
  {
  }

  /** The names a run of settings sets. */
  function SettingNames(settings: seq<(string, string)>): (r: seq<string>)
    ensures |r| == |settings|
    ensures forall i :: 0 <= i < |settings| ==> r[i] == settings[i].0
  {
    seq(|settings|, i requires 0 <= i < |settings| => settings[i].0)
  }

  /** The entries a run of fresh settings appends: one single-valued entry each. */
  function SettingEntries(settings: seq<(string, string)>): (r: seq<Entry>)
    ensures |r| == |settings|
    ensures forall i :: 0 <= i < |settings| ==> r[i] == Entry(settings[i].0, [settings[i].1])
  {
    seq(|settings|, i requires 0 <= i < |settings| => Entry(settings[i].0, [settings[i].1]))
  }

  /**
   * Setting distinct names the map lacks appends one entry per setting, in
   * the order of the calls.
   */
  lemma {:induction false} SetAllFresh(m: VariableMap, settings: seq<(string, string)>)
    requires forall i, j :: 0 <= i < j < |settings| ==> settings[i].0 != settings[j].0
    requires forall i :: 0 <= i < |settings| ==> settings[i].0 !in Keys(m)
    ensures SetAll(m, settings).entries == m.entries + SettingEntries(settings)
    ensures Keys(SetAll(m, settings)) == Keys(m) + SettingNames(settings)
    decreases |settings|
  {
    if settings == [] {
      assert SettingEntries(settings) == [] && SettingNames(settings) == [];
    } else {
      var (name, value) := settings[0];
      var m' := Set(m, name, value);
      var rest := settings[1..];
      FreshSettingStep(m, settings);
      SetAllFresh(m', rest);
      SettingsCons(settings);
      AppendAssociative(m.entries, [Entry(name, [value])], SettingEntries(rest));
      AppendAssociative(Keys(m), [name], SettingNames(rest));
    }
  }

  /** The first of a run of fresh settings appends its entry, and the rest stay fresh. */
  lemma FreshSettingStep(m: VariableMap, settings: seq<(string, string)>)
    requires settings != []
    requires forall i, j :: 0 <= i < j < |settings| ==> settings[i].0 != settings[j].0
    requires forall i :: 0 <= i < |settings| ==> settings[i].0 !in Keys(m)
    ensures var m' := Set(m, settings[0].0, settings[0].1);
            && m'.entries == m.entries + [Entry(settings[0].0, [settings[0].1])]
            && Keys(m') == Keys(m) + [settings[0].0]
            && (forall i, j :: 0 <= i < j < |settings[1..]| ==> settings[1..][i].0 != settings[1..][j].0)
            && (forall i :: 0 <= i < |settings[1..]| ==> settings[1..][i].0 !in Keys(m'))
  {
    var (name, value) := settings[0];
    var m' := Set(m, name, value);
    NewNameAppended(m, name, value);
    var rest := settings[1..];
    forall i | 0 <= i < |rest| ensures rest[i].0 !in Keys(m') {
      assert rest[i] == settings[i + 1];
    }
  }

  /** The entries and names of a run of settings, its first setting split off. */
  lemma SettingsCons(settings: seq<(string, string)>)
    requires settings != []
    ensures SettingEntries(settings) == [Entry(settings[0].0, [settings[0].1])] + SettingEntries(settings[1..])
    ensures SettingNames(settings) == [settings[0].0] + SettingNames(settings[1..])
  {
    SettingEntriesCons(settings);
    SettingNamesCons(settings);
  }

  lemma SettingEntriesCons(settings: seq<(string, string)>)
    requires settings != []
    ensures SettingEntries(settings) == [Entry(settings[0].0, [settings[0].1])] + SettingEntries(settings[1..])
  {
    var rest := settings[1..];
    var es, rs := SettingEntries(settings), SettingEntries(rest);
    forall i | 0 <= i < |rest| ensures es[i + 1] == rs[i] {
      assert rest[i] == settings[i + 1];
    }
    assert es == [es[0]] + rs;
  }

  lemma SettingNamesCons(settings: seq<(string, string)>)
    requires settings != []
    ensures SettingNames(settings) == [settings[0].0] + SettingNames(settings[1..])
  {
    var rest := settings[1..];
    var ns, rn := SettingNames(settings), SettingNames(rest);
    forall i | 0 <= i < |rest| ensures ns[i + 1] == rn[i] {
      assert rest[i] == settings[i + 1];
    }
    assert ns == [ns[0]] + rn;
  }

  /** Set leaves the name with exactly the one value, Add appends the value to the name's values. */
  lemma UpdateValues(m: VariableMap, name: string, value: string)
    ensures Values(Set(m, name, value), name) == [value]
    ensures Values(Add(m, name, value), name) == Values(m, name) + [value]
    ensures Keys(Set(m, name, value)) == Keys(Add(m, name, value))
                                      == if name in Keys(m) then Keys(m) else Keys(m) + [name]
  {
    var keys := Keys(m);
    if name in keys {
      var i := IndexOf(keys, name);
      assert Keys(Set(m, name, value)) == keys;
      assert Keys(Add(m, name, value)) == keys;
    } else {
      assert Keys(Set(m, name, value)) == keys + [name];
      assert Keys(Add(m, name, value)) == keys + [name];
      assert (keys + [name])[..|keys|] == keys;
    }
  }

  /** A name the map lacks is set or added as a new last entry holding just the value. */
  lemma NewNameAppended(m: VariableMap, name: string, value: string)
    requires name !in Keys(m)
    ensures Set(m, name, value).entries == m.entries + [Entry(name, [value])]
    ensures Add(m, name, value).entries == m.entries + [Entry(name, [value])]
    ensures Keys(Set(m, name, value)) == Keys(Add(m, name, value)) == Keys(m) + [name]
  {
    assert Keys(Set(m, name, value)) == Keys(m) + [name];
  }

  /** Setting or adding a name leaves every other name's values alone. */
  lemma OtherNamesUnchanged(m: VariableMap, name: string, value: string, other: string)
    requires other != name
    ensures Values(Set(m, name, value), other) == Values(m, other)
    ensures Values(Add(m, name, value), other) == Values(m, other)
  {
    var keys := Keys(m);
    UpdateValues(m, name, value);
    if name in keys {
      var i := IndexOf(keys, name);
      OtherEntryKept(m, Set(m, name, value), i, other);
      OtherEntryKept(m, Add(m, name, value), i, other);
    } else {
      NewNameAppended(m, name, value);
      OtherEntryBeforeNew(m, Set(m, name, value), name, value, other);
      OtherEntryBeforeNew(m, Add(m, name, value), name, value, other);
    }
  }

  /** Replacing the entry of another name, under the same names, keeps a name's values. */
  lemma OtherEntryKept(m: VariableMap, m': VariableMap, i: nat, other: string)
    requires i < |m.entries| && Keys(m') == Keys(m)
    requires m'.entries == m.entries[i := m'.entries[i]]
    requires m.entries[i].name != other
    ensures Values(m', other) == Values(m, other)
  {
    var keys := Keys(m);
    if other in keys {
      var j := IndexOf(keys, other);
      assert j != i;
    }
  }

  /** Appending an entry for a new name keeps the values of the names already there. */
  lemma OtherEntryBeforeNew(m: VariableMap, m': VariableMap, name: string, value: string, other: string)
    requires other != name
    requires m'.entries == m.entries + [Entry(name, [value])] && Keys(m') == Keys(m) + [name]
    ensures Values(m', other) == Values(m, other)
  {
    var keys := Keys(m);
    if other in keys {
      var j := IndexOf(keys, other);
      assert (keys + [name])[..j] == keys[..j];
      assert (keys + [name])[j] == other;
      assert IndexOf(Keys(m'), other) == j;
      assert m'.entries[j] == m.entries[j];
    } else {
      assert other !in keys + [name];
    }
  }

  /** Setting or adding keeps every name supplied with a value. */
  lemma UpdatesKeepNonEmpty(m: VariableMap, name: string, value: string)
    requires NonEmptyValues(m.entries)
    ensures NonEmptyValues(Set(m, name, value).entries)
    ensures NonEmptyValues(Add(m, name, value).entries)
  {
  }

  /** So does a run of settings. */
  lemma {:induction false} SetAllKeepsNonEmpty(m: VariableMap, settings: seq<(string, string)>)
    requires NonEmptyValues(m.entries)
    ensures NonEmptyValues(SetAll(m, settings).entries)
    decreases |settings|
  {
    if settings != [] {
      UpdatesKeepNonEmpty(m, settings[0].0, settings[0].1);
      SetAllKeepsNonEmpty(Set(m, settings[0].0, settings[0].1), settings[1..]);
    }
  }

  /** Setting or adding keeps a map well formed. */
  lemma UpdatesKeepWellFormed(m: VariableMap, name: string, value: string)
    requires WellFormed(m)
    ensures WellFormed(Set(m, name, value))
    ensures WellFormed(Add(m, name, value))
  {
    var keys := Keys(m);
    var s, a := Set(m, name, value), Add(m, name, value);
    if name in keys {
      var k := IndexOf(keys, name);
      forall i | 0 <= i < |m.entries|
        ensures s.entries[i].name == a.entries[i].name == m.entries[i].name
        ensures |s.entries[i].values| > 0 && |a.entries[i].values| > 0
      {
        assert keys[k] == name;
      }
    } else {
      forall i | 0 <= i < |m.entries| ensures m.entries[i].name != name {
        assert keys[i] == m.entries[i].name;
      }
      assert s.entries == a.entries == m.entries + [Entry(name, [value])];
    }
  }
}
