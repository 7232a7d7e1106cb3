/** The header collection (`HttpHeaders`): a map in insertion order (a
    Kotlin `mutableMapOf`, i.e. a `LinkedHashMap`) from a key to a header.
    `put`, `get` and `remove` key a header by its name in lower case, which
    makes them case-insensitive; the constructor from a list of headers
    keys each one by its name as given. */
module HttpHeaders {
  import opened Outcomes
  import opened HttpHeader
  import Text

  /** The map: its keys in insertion order and the header under each. */
  datatype Headers = Headers(order: seq<string>, table: map<string, Header>)

  /** The keys are listed once each, and exactly the keys of the table
      are listed. */
  predicate Valid(h: Headers) {
    && Distinct(h.order)
    && h.table.Keys == set k | k in h.order
  }

  // ---------------------------------------------------------------------
  // The insertion-ordered map
  // ---------------------------------------------------------------------

  /** `map[key] = value`: an existing key keeps its place and takes the new
      header, a new key goes last. */
  function MapPut(h: Headers, key: string, value: Header): (r: Headers)
    ensures r.table == h.table[key := value]
    ensures r.order == if key in h.order then h.order else h.order + [key]
    ensures Valid(h) ==> Valid(r)
  {
    Headers(if key in h.order then h.order else h.order + [key], h.table[key := value])
  }

  /** `map.remove(key)`: the header that was there, and the map without
      that entry; the other keys keep their order. */
  function MapRemove(h: Headers, key: string): (r: (Option<Header>, Headers))
    ensures r.0 == if key in h.table then Some(h.table[key]) else None
    ensures r.1.table == h.table - {key}
    ensures r.1.order == Without(h.order, key)
    ensures Valid(h) ==> Valid(r.1)
  {
    (if key in h.table then Some(h.table[key]) else None, Headers(Without(h.order, key), h.table - {key}))
  }

  predicate Distinct(keys: seq<string>) {
    forall i, j :: 0 <= i < j < |keys| ==> keys[i] != keys[j]
  }

  /** The keys without `key`, in the same order. */
  function Without(keys: seq<string>, key: string): (r: seq<string>)
    ensures forall k :: k in r <==> k in keys && k != key
    ensures key !in keys ==> r == keys
    ensures Distinct(keys) ==> Distinct(r)
    ensures Distinct(keys) && key in keys ==> |r| == |keys| - 1
  {
    if |keys| == 0 then []
    else
      var rest := Without(keys[1..], key);
      assert keys == [keys[0]] + keys[1..];
      assert Distinct(keys) ==> Distinct(keys[1..]) && keys[0] !in keys[1..];
      if keys[0] == key then rest
      else
        var r := [keys[0]] + rest;
        assert Distinct(keys) ==> Distinct(r) by {
          if Distinct(keys) {
            forall i, j | 0 <= i < j < |r| ensures r[i] != r[j] {
              if i == 0 {
                assert r[j] == rest[j - 1] && rest[j - 1] in rest;
              } else {
                assert r[i] == rest[i - 1] && r[j] == rest[j - 1];
              }
            }
          }
        }
        r
  }

  // ---------------------------------------------------------------------
  // The operations of `HttpHeaders`
  // ---------------------------------------------------------------------

  /** `formatName`: the key of a header name. */
  function FormatName(name: string): string {
    Text.LowerStr(name)
  }

  /** `HttpHeaders()`. */
  function Empty(): (h: Headers)
    ensures Valid(h) && Size(h) == 0
  {
    Headers([], map[])
  }

  /** `getSize()`. */
  function Size(h: Headers): int {
    |h.order|
  }

  /** Where a header named `name` first appears in the list, or the list's
      length when none does. */
  function FirstIndex(headers: seq<Header>, name: string): (i: nat)
    ensures i <= |headers|
    ensures i < |headers| ==> headers[i].name == name
    ensures forall j :: 0 <= j < i ==> headers[j].name != name
  {
    if |headers| == 0 then 0
    else if headers[0].name == name then 0
    else 1 + FirstIndex(headers[1..], name)
  }

  /** Appending a header leaves the first appearance of a name that
      already appears where it was. */
  lemma FirstIndexAppend(headers: seq<Header>, x: Header, name: string)
    ensures FirstIndex(headers + [x], name) ==
              if FirstIndex(headers, name) < |headers| then FirstIndex(headers, name)
              else if x.name == name then |headers| else |headers| + 1
  {
    var s := headers + [x];
    var i, i' := FirstIndex(headers, name), FirstIndex(s, name);
    assert forall j :: 0 <= j < |headers| ==> s[j] == headers[j];
    if i < |headers| {
      assert s[i].name == name;
    } else if x.name == name {
      assert s[|headers|].name == name;
    }
  }

  /** Each key holds the last header of the list with that name. */
  predicate LastWins(headers: seq<Header>, h: Headers) {
    forall k :: k in h.table ==>
      exists i :: 0 <= i < |headers| && h.table[k] == headers[i]
                  && forall j :: i < j < |headers| ==> headers[j].name != k
  }

  /** The keys are listed in the order in which their names first appear
      in the list. */
  predicate InFirstAppearanceOrder(headers: seq<Header>, order: seq<string>) {
    forall p, q :: 0 <= p < q < |order| ==>
      FirstIndex(headers, order[p]) < FirstIndex(headers, order[q]) < |headers|
  }

  /** The keys are exactly the names in the list, each key holding a
      header of that name. */
  ghost predicate KeyedByName(headers: seq<Header>, h: Headers) {
    && (forall k :: k in h.table <==> exists i :: 0 <= i < |headers| && headers[i].name == k)
    && (forall k :: k in h.table ==> h.table[k].name == k)
  }

  /** `HttpHeaders(headers)` from a list: `associateBy { it.name }`, so each
      header is keyed by its name as given, and a later header with the
      same name replaces an earlier one, in the earlier one's place. */
  function FromList(headers: seq<Header>): (h: Headers)
    ensures Valid(h)
    ensures KeyedByName(headers, h)
    ensures LastWins(headers, h)
    ensures InFirstAppearanceOrder(headers, h.order)
  {
    if |headers| == 0 then Headers([], map[])
    else
      var init, last := headers[..|headers| - 1], headers[|headers| - 1];
      assert headers == init + [last];
      var h0 := FromList(init);
      PutNextHeader(init, last, h0);
      MapPut(h0, last.name, last)
  }

  /** Putting the next header of the list keeps all four properties. */
  lemma PutNextHeader(init: seq<Header>, last: Header, h0: Headers)
    requires Valid(h0) && KeyedByName(init, h0) && LastWins(init, h0)
    requires InFirstAppearanceOrder(init, h0.order)
    ensures var h := MapPut(h0, last.name, last);
            && Valid(h) && KeyedByName(init + [last], h) && LastWins(init + [last], h)
            && InFirstAppearanceOrder(init + [last], h.order)
  {
    KeyedStep(init, last, h0);
    LastWinsStep(init, last, h0);
    OrderStep(init, last, h0);
  }

  /** Putting the next header of the list adds exactly its name. */
  lemma KeyedStep(init: seq<Header>, last: Header, h0: Headers)
    requires KeyedByName(init, h0)
    ensures KeyedByName(init + [last], MapPut(h0, last.name, last))
  {
    var headers, h := init + [last], MapPut(h0, last.name, last);
    assert forall i :: 0 <= i < |init| ==> headers[i] == init[i];
    assert headers[|init|] == last;
  }

  /** Putting the next header of the list keeps the last header per name. */
  lemma LastWinsStep(init: seq<Header>, last: Header, h0: Headers)
    requires LastWins(init, h0)
    ensures LastWins(init + [last], MapPut(h0, last.name, last))
  {
    var headers, h := init + [last], MapPut(h0, last.name, last);
    forall k | k in h.table
      ensures exists i :: 0 <= i < |headers| && h.table[k] == headers[i]
                          && forall j :: i < j < |headers| ==> headers[j].name != k
    {
      if k == last.name {
        assert h.table[k] == headers[|init|];
      } else {
        var i :| 0 <= i < |init| && h0.table[k] == init[i]
                 && forall j :: i < j < |init| ==> init[j].name != k;
        assert h.table[k] == headers[i];
      }
    }
  }

  /** A name already in the map first appears at the same place in the
      longer list. */
  lemma FirstIndexKept(init: seq<Header>, last: Header, h0: Headers)
    requires Valid(h0) && KeyedByName(init, h0)
    ensures forall k :: k in h0.order ==> FirstIndex(init + [last], k) == FirstIndex(init, k) < |init|
  {
    forall k | k in h0.order
      ensures FirstIndex(init + [last], k) == FirstIndex(init, k) < |init|
    {
      assert k in h0.table;
      var i :| 0 <= i < |init| && init[i].name == k;
      FirstIndexAppend(init, last, k);
    }
  }

  /** A name not yet in the map first appears at the end of the longer
      list. */
  lemma FirstIndexOfNewName(init: seq<Header>, last: Header, h0: Headers)
    requires Valid(h0) && KeyedByName(init, h0) && last.name !in h0.order
    ensures FirstIndex(init + [last], last.name) == |init|
  {
    FirstIndexAppend(init, last, last.name);
    assert last.name !in h0.table;
    assert forall i :: 0 <= i < |init| ==> init[i].name != last.name;
  }

  /** Putting the next header of the list adds its name last when it is
      new, which keeps the first-appearance order. */
  lemma OrderStep(init: seq<Header>, last: Header, h0: Headers)
    requires Valid(h0) && KeyedByName(init, h0)
    requires InFirstAppearanceOrder(init, h0.order)
    ensures InFirstAppearanceOrder(init + [last], MapPut(h0, last.name, last).order)
  {
    var headers, order := init + [last], MapPut(h0, last.name, last).order;
    FirstIndexKept(init, last, h0);
    if last.name !in h0.order {
      FirstIndexOfNewName(init, last, h0);
      forall p, q | 0 <= p < q < |order|
        ensures FirstIndex(headers, order[p]) < FirstIndex(headers, order[q]) < |headers|
      {
        assert order[p] == h0.order[p] && order[p] in h0.order;
        if q < |h0.order| {
          assert order[q] == h0.order[q] && order[q] in h0.order;
        }
      }
    } else {
      forall p, q | 0 <= p < q < |order|
        ensures FirstIndex(headers, order[p]) < FirstIndex(headers, order[q]) < |headers|
      {
        assert order[p] in h0.order && order[q] in h0.order;
      }
    }
  }

  /** `put(name, value)` and `put(name to value)`. */
  function Put(h: Headers, name: string, value: Option<string>): (r: Headers)
    ensures Valid(h) ==> Valid(r)
  {
    MapPut(h, FormatName(name), Header(name, value))
  }

  /** `get(name)`. */
  function Get(h: Headers, name: string): Option<Header> {
    var key := FormatName(name);
    if key in h.table then Some(h.table[key]) else None
  }

  /** `remove(name)`: the removed header and the remaining collection. */
  function Remove(h: Headers, name: string): (r: (Option<Header>, Headers))
    ensures r.0 == Get(h, name)
    ensures Valid(h) ==> Valid(r.1)
    ensures Valid(h) ==> Size(r.1) == if r.0.Some? then Size(h) - 1 else Size(h)
  {
    MapRemove(h, FormatName(name))
  }

  /** `getValue(name)`: the comma-joined value, or null. */
  function GetValue(h: Headers, name: string): (r: Option<string>)
    ensures r.Some? <==> Get(h, name).Some? && Get(h, name).value.value.Some?
    ensures r.Some? ==> r == Get(h, name).value.value
  {
    match Get(h, name)
    case None => None
    case Some(header) => header.value
  }

  /** `getValues(name)`: the separate values, or null. */
  function GetValuesOf(h: Headers, name: string): (r: Option<seq<string>>)
    ensures r.Some? <==> GetValue(h, name).Some?
    ensures r.Some? ==> |r.value| >= 1 && Text.Join(r.value, ',') == GetValue(h, name).value
  {
    match Get(h, name)
    case None => None
    case Some(header) => GetValues(header)
  }

  /** `iterator()`: the headers in insertion order. */
  function Values(h: Headers): (hs: seq<Header>)
    requires Valid(h)
    ensures |hs| == Size(h)
    ensures forall i :: 0 <= i < |hs| ==> hs[i] == h.table[h.order[i]]
  {
    seq(|h.order|, i requires 0 <= i < |h.order| && h.order[i] in h.table => h.table[h.order[i]])
  }

  /** Some header in `hs` is named `k` and has a value. */
  predicate Named(hs: seq<Header>, k: string) {
    exists i :: 0 <= i < |hs| && hs[i].name == k && hs[i].value.Some?
  }

  /** `toMap()`: each header with a value, under its name as given; when
      two headers share a name the later one wins. */
  function ToMap(hs: seq<Header>): (m: map<string, string>)
    ensures forall k :: k in m <==> Named(hs, k)
  {
    if |hs| == 0 then map[]
    else
      var init := hs[..|hs| - 1];
      var last := hs[|hs| - 1];
      NamedSplitsAtLast(hs);
      if last.value.Some? then ToMap(init)[last.name := last.value.value] else ToMap(init)
  }

  lemma NamedSplitsAtLast(hs: seq<Header>)
    requires |hs| > 0
    ensures forall k :: Named(hs, k) <==> Named(hs[..|hs| - 1], k) || (hs[|hs| - 1].name == k && hs[|hs| - 1].value.Some?)
  {
    var init := hs[..|hs| - 1];
    forall k | Named(hs, k) && !(hs[|hs| - 1].name == k && hs[|hs| - 1].value.Some?)
      ensures Named(init, k)
    {
      var i :| 0 <= i < |hs| && hs[i].name == k && hs[i].value.Some?;
      assert init[i] == hs[i];
    }
    forall k | Named(init, k) ensures Named(hs, k) {
      var i :| 0 <= i < |init| && init[i].name == k && init[i].value.Some?;
      assert hs[i] == init[i];
    }
  }

  /** `toString()`: `name=value` per header, joined by ", ", a missing
      value printed as `null`. */
  function ToText(hs: seq<Header>): string {
    if |hs| == 0 then ""
    else if |hs| == 1 then HeaderText(hs[0])
    else ToText(hs[..|hs| - 1]) + ", " + HeaderText(hs[|hs| - 1])
  }

  function HeaderText(h: Header): string {
    h.name + "=" + (if h.value.Some? then h.value.value else "null")
  }

  // ---------------------------------------------------------------------
  // Properties
  // ---------------------------------------------------------------------

  /** Two names that differ only in case find the same header. */
  lemma GetIgnoresCase(h: Headers, a: string, b: string)
    requires Text.EqualsIgnoreCase(a, b)
    ensures Get(h, a) == Get(h, b)
  {
    Text.EqualsIgnoreCaseIsLowerEquality(a, b);
  }

  /** After `put(name, value)` every case variant of `name` finds the new
      header, under the name as written in the put, and every other name
      finds what it found before. */
  lemma PutThenGet(h: Headers, name: string, value: Option<string>, other: string)
    ensures Get(Put(h, name, value), other) ==
              if Text.EqualsIgnoreCase(name, other) then Some(Header(name, value)) else Get(h, other)
  {
    Text.EqualsIgnoreCaseIsLowerEquality(name, other);
  }

  /** `put` adds an entry exactly when no case variant of the name is
      present. */
  lemma PutSize(h: Headers, name: string, value: Option<string>)
    requires Valid(h)
    ensures Size(Put(h, name, value)) == if Get(h, name).Some? then Size(h) else Size(h) + 1
  {
  }

  /** A second `put` under a case variant of the same name replaces the
      header (taking the new spelling of the name) and keeps the size. */
  lemma PutCaseVariantReplaces(h: Headers, a: string, b: string, v1: Option<string>, v2: Option<string>)
    requires Valid(h) && Text.EqualsIgnoreCase(a, b)
    ensures Size(Put(Put(h, a, v1), b, v2)) == Size(Put(h, a, v1))
    ensures Get(Put(Put(h, a, v1), b, v2), a) == Some(Header(b, v2))
  {
    var h1 := Put(h, a, v1);
    PutThenGet(h, a, v1, b);
    PutSize(h1, b, v2);
    PutThenGet(h1, b, v2, a);
    Text.EqualsIgnoreCaseIsLowerEquality(a, b);
  }

  /** After `remove(name)` no case variant of `name` is found, the other
      names are unaffected, and the removed header is what `get` found. */
  lemma RemoveThenGet(h: Headers, name: string, other: string)
    ensures Remove(h, name).0 == Get(h, name)
    ensures Get(Remove(h, name).1, other) ==
              if Text.EqualsIgnoreCase(name, other) then None else Get(h, other)
  {
    Text.EqualsIgnoreCaseIsLowerEquality(name, other);
  }

  /** `toMap()` gives a name the value of the last header of that name
      that has a value. */
  lemma {:induction false} ToMapTakesLastValue(hs: seq<Header>, i: int)
    requires 0 <= i < |hs| && hs[i].value.Some?
    requires !Named(hs[i + 1..], hs[i].name)
    ensures hs[i].name in ToMap(hs) && ToMap(hs)[hs[i].name] == hs[i].value.value
    decreases |hs|
  {
    var init := hs[..|hs| - 1];
    var last := hs[|hs| - 1];
    if i < |hs| - 1 {
      assert init[i + 1..] == hs[i + 1..|hs| - 1];
      assert !Named(init[i + 1..], hs[i].name);
      assert init[i] == hs[i];
      ToMapTakesLastValue(init, i);
      assert !(last.name == hs[i].name && last.value.Some?) by {
        assert hs[i + 1..][|hs| - i - 2] == last;
      }
    }
  }

  /** The list constructor keys a header by its name as given, so a
      header whose name has an upper-case letter is held by the collection
      but `get` of that very name, which looks for the lower-case key,
      misses it. */
  lemma FromListMissesUpperCase(name: string, value: Option<string>)
    requires exists i :: 0 <= i < |name| && 'A' <= name[i] <= 'Z'
    ensures name in FromList([Header(name, value)]).table
    ensures Get(FromList([Header(name, value)]), name) == None
  {
    var i :| 0 <= i < |name| && 'A' <= name[i] <= 'Z';
    assert FormatName(name)[i] != name[i];
  }

  /** `toString()` of two headers, one without a value. */
  lemma ToTextExample()
    ensures ToText([Header("a", None), Header("B", Some("x,y"))]) == "a=null, B=x,y"
  {
    var hs := [Header("a", None), Header("B", Some("x,y"))];
    assert hs[..1] == [Header("a", None)];
  }
}
