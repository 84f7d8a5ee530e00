// Name/value tables terminated by a sentinel entry whose name is NULL, and
// their two lookups.

module Maps {
  import opened Common

  /** One `{ name, value }` row of a table. */
  datatype Entry = Entry(name: string, value: int)

  /**
   * A table: the rows before the sentinel, and the sentinel's value (the
   * value `{ NULL, }` leaves at 0, or an explicit one such as -1).
   */
  datatype Map = Map(entries: seq<Entry>, sentinel: int)

  /** Index of the first row named `name`, if any. */
  function FirstNamed(t: seq<Entry>, name: string): (r: Option<nat>)
    ensures r.Some? ==> (r.value < |t| && t[r.value].name == name &&
      forall j :: 0 <= j < r.value ==> t[j].name != name)
    ensures r.None? ==> forall j :: 0 <= j < |t| ==> t[j].name != name
  {
    if t == [] then None
    else if t[0].name == name then Some(0)
    else
      var k := FirstNamed(t[1..], name);
      if k.Some? then Some(k.value + 1) else None
  }

  /** Index of the first row holding `value`, if any. */
  function FirstValued(t: seq<Entry>, value: int): (r: Option<nat>)
    ensures r.Some? ==> (r.value < |t| && t[r.value].value == value &&
      forall j :: 0 <= j < r.value ==> t[j].value != value)
    ensures r.None? ==> forall j :: 0 <= j < |t| ==> t[j].value != value
  {
    if t == [] then None
    else if t[0].value == value then Some(0)
    else
      var k := FirstValued(t[1..], value);
      if k.Some? then Some(k.value + 1) else None
  }

  /** What `mvt_map_lookup` returns. */
  function LookupOf(m: Map, name: string): int
  {
    var k := FirstNamed(m.entries, name);
    if k.Some? then m.entries[k.value].value else m.sentinel
  }

  /** What `mvt_map_lookup_value` returns (`None` for NULL). */
  function LookupValueOf(m: Map, value: int): Option<string>
  {
    var k := FirstValued(m.entries, value);
    if k.Some? then Some(m.entries[k.value].name) else None
  }

  /** `mvt_map_lookup`: scan to the first row with this name, else the sentinel's value. */
  method Lookup(m: Map, name: string) returns (v: int)
    ensures v == LookupOf(m, name)
    ensures (exists i :: 0 <= i < |m.entries| && m.entries[i].name == name) ||
      v == m.sentinel
  {
    var i := 0;
    while i < |m.entries|
      invariant 0 <= i <= |m.entries|
      invariant forall j :: 0 <= j < i ==> m.entries[j].name != name
    {
      if m.entries[i].name == name {
        FirstNamedAt(m.entries, name, i);
        return m.entries[i].value;
      }
      i := i + 1;
    }
    return m.sentinel;
  }

  /** `mvt_map_lookup_value`: scan to the first row with this value, else NULL. */
  method LookupValue(m: Map, value: int) returns (r: Option<string>)
    ensures r == LookupValueOf(m, value)
    ensures r.Some? <==> exists i :: 0 <= i < |m.entries| && m.entries[i].value == value
  {
    var i := 0;
    while i < |m.entries|
      invariant 0 <= i <= |m.entries|
      invariant forall j :: 0 <= j < i ==> m.entries[j].value != value
    {
      if m.entries[i].value == value {
        FirstValuedAt(m.entries, value, i);
        return Some(m.entries[i].name);
      }
      i := i + 1;
    }
    return None;
  }

  /** A row with no earlier namesake is the first match. */
  lemma {:induction false} FirstNamedAt(t: seq<Entry>, name: string, i: nat)
    requires i < |t| && t[i].name == name
    requires forall j :: 0 <= j < i ==> t[j].name != name
    ensures FirstNamed(t, name) == Some(i)
  {
    var k := FirstNamed(t, name);
    assert k.Some?;
  }

  lemma {:induction false} FirstValuedAt(t: seq<Entry>, value: int, i: nat)
    requires i < |t| && t[i].value == value
    requires forall j :: 0 <= j < i ==> t[j].value != value
    ensures FirstValued(t, value) == Some(i)
  {
    var k := FirstValued(t, value);
    assert k.Some?;
  }

  /** No two rows share a name, and no two rows share a value. */
  predicate Distinct(m: Map)
  {
    forall i, j :: 0 <= i < j < |m.entries| ==>
      m.entries[i].name != m.entries[j].name && m.entries[i].value != m.entries[j].value
  }

  /** Row `i` shares its name and its value with no later row. */
  predicate RowFresh(m: Map, i: nat)
    requires i < |m.entries|
  {
    forall j :: i < j < |m.entries| ==>
      m.entries[i].name != m.entries[j].name && m.entries[i].value != m.entries[j].value
  }

  /** A table is distinct once every row is fresh with respect to the rows after it. */
  lemma {:induction false} DistinctRows(m: Map)
    requires forall i :: 0 <= i < |m.entries| ==> RowFresh(m, i)
    ensures Distinct(m)
  {
    forall i, j | 0 <= i < j < |m.entries|
      ensures m.entries[i].name != m.entries[j].name && m.entries[i].value != m.entries[j].value
    {
      assert RowFresh(m, i);
    }
  }

  /** In a table with distinct names and values each listed row is found by either key. */
  lemma {:induction false} LookupListed(m: Map, i: nat)
    requires Distinct(m) && i < |m.entries|
    ensures LookupOf(m, m.entries[i].name) == m.entries[i].value
    ensures LookupValueOf(m, m.entries[i].value) == Some(m.entries[i].name)
  {
    var e := m.entries[i];
    forall j | 0 <= j < i ensures m.entries[j].name != e.name && m.entries[j].value != e.value {
      assert 0 <= j < i < |m.entries|;
    }
    FirstNamedAt(m.entries, e.name, i);
    FirstValuedAt(m.entries, e.value, i);
  }

  /** The two lookups invert each other on the names and values listed in a distinct table. */
  lemma {:induction false} LookupRoundTrip(m: Map, name: string, value: int)
    requires Distinct(m)
    ensures LookupValueOf(m, value).Some? ==> LookupOf(m, LookupValueOf(m, value).value) == value
    ensures FirstNamed(m.entries, name).Some? ==>
      LookupValueOf(m, LookupOf(m, name)) == Some(name)
  {
    var kv := FirstValued(m.entries, value);
    if kv.Some? {
      LookupListed(m, kv.value);
    }
    var kn := FirstNamed(m.entries, name);
    if kn.Some? {
      LookupListed(m, kn.value);
    }
  }
}
