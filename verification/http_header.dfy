/** One HTTP header (`HttpHeader`): a name and a value that holds several
    values joined by commas, or null. */
module HttpHeader {
  import opened Outcomes
  import Text

  datatype Header = Header(name: string, value: Option<string>)

  /** `getValues()`: null without a value, otherwise the value split on
      every comma, with no trimming and with empty parts kept. */
  function GetValues(h: Header): (r: Option<seq<string>>)
    ensures r.None? <==> h.value.None?
    ensures r.Some? ==> |r.value| >= 1 && Text.Join(r.value, ',') == h.value.value
    ensures r.Some? ==> forall i :: 0 <= i < |r.value| ==> ',' !in r.value[i]
  {
    match h.value
    case None => None
    case Some(v) =>
      Text.JoinSplit(v, ',');
      Some(Text.Split(v, ','))
  }

  /** `addValue(value)`: a null value changes nothing; otherwise the value
      becomes the header's value when it had none, and is appended after a
      comma when it had one. */
  function AddValue(h: Header, value: Option<string>): (r: Header)
    ensures r.name == h.name
    ensures value.None? ==> r == h
    ensures value.Some? && h.value.None? ==> r.value == value
    ensures value.Some? && h.value.Some? ==> r.value == Some(h.value.value + "," + value.value)
  {
    match value
    case None => h
    case Some(v) =>
      match h.value
      case None => h.(value := Some(v))
      case Some(prev) => h.(value := Some(prev + "," + v))
  }

  /** A value without a comma added to a header comes back as the last of
      its values, after all the values it had before. */
  lemma AddedValueIsLast(h: Header, v: string)
    requires ',' !in v
    ensures GetValues(AddValue(h, Some(v))) ==
              Some(if h.value.None? then [v] else GetValues(h).value + [v])
  {
    if h.value.Some? {
      assert h.value.value + "," + v == h.value.value + [','] + v;
      Text.SplitAppendLast(h.value.value, v, ',');
    } else {
      assert Text.Split(v, ',') == [v] by {
        Text.SplitJoin([v], ',');
      }
    }
  }
}
