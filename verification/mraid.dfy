/** The MRAID commands an ad creative can send to the SDK, parsed from the
    command name in the creative's request. */
module MraidCommand {
  import opened Outcomes
  import opened Text
  import Enums

  datatype Command =
    | Open
    | Close
    | Resize
    | Expand
    | SetOrientationProperties
    | PlayVideo
    | Unload
    | Log
    | NotSupportedOrUnknown

  /** The constants in declaration order, as `values()` returns them. */
  function Values(): (vs: seq<Command>)
    ensures |vs| == 9
  {
    [Open, Close, Resize, Expand, SetOrientationProperties, PlayVideo, Unload, Log, NotSupportedOrUnknown]
  }

  function Key(c: Command): string {
    match c
    case Open => "open"
    case Close => "close"
    case Resize => "resize"
    case Expand => "expand"
    case SetOrientationProperties => "setOrientationProperties"
    case PlayVideo => "playVideo"
    case Unload => "unload"
    case Log => "log"
    case NotSupportedOrUnknown => "notSupportedOrUnknown"
  }

  /** Where each command sits in `values()`. */
  function Ordinal(c: Command): (i: nat)
    ensures i < |Values()| && Values()[i] == c
  {
    match c
    case Open => 0
    case Close => 1
    case Resize => 2
    case Expand => 3
    case SetOrientationProperties => 4
    case PlayVideo => 5
    case Unload => 6
    case Log => 7
    case NotSupportedOrUnknown => 8
  }

  /** `parse`: the first command whose key equals the given one ignoring
      case; a null or unknown key is `NOT_SUPPORTED_OR_UNKNOWN`. */
  function Parse(key: Option<string>): (c: Command)
    ensures key.None? ==> c == NotSupportedOrUnknown
    ensures c != NotSupportedOrUnknown ==> key.Some? && EqualsIgnoreCase(Key(c), key.value)
  {
    match key
    case None => NotSupportedOrUnknown
    case Some(k) => Enums.FindFirst(Values(), c => EqualsIgnoreCase(Key(c), k)).GetOr(NotSupportedOrUnknown)
  }

  lemma OrdinalOfValues()
    ensures forall i :: 0 <= i < |Values()| ==> Ordinal(Values()[i]) == i
  {
  }

  /** Two different keys differ in length or in their first letter
      ignoring case. */
  lemma KeysDiffer(a: Command, b: Command)
    requires a != b
    ensures |Key(a)| > 0 && |Key(b)| > 0
    ensures |Key(a)| != |Key(b)| || Lower(Key(a)[0]) != Lower(Key(b)[0])
  {
  }

  /** No two keys are equal, even ignoring case. */
  lemma KeysDistinctIgnoringCase(a: Command, b: Command)
    requires a != b
    ensures !EqualsIgnoreCase(Key(a), Key(b))
  {
    KeysDiffer(a, b);
  }

  /** A string equal to a command's key ignoring case parses as that
      command. */
  lemma ParseMatchingKey(s: string, c: Command)
    requires EqualsIgnoreCase(Key(c), s)
    ensures Parse(Some(s)) == c
  {
    var p := (d: Command) => EqualsIgnoreCase(Key(d), s);
    forall d | d != c ensures !p(d) {
      KeysDiffer(d, c);
    }
    OrdinalOfValues();
    Enums.FindFirstUnique(Values(), p, Ordinal(c));
  }

  /** A command is parsed from exactly the strings equal to its key
      ignoring case; `NOT_SUPPORTED_OR_UNKNOWN` also takes every string no
      key matches. */
  lemma ParseIff(s: string, c: Command)
    ensures Parse(Some(s)) == c <==>
              EqualsIgnoreCase(Key(c), s)
              || (c == NotSupportedOrUnknown && forall d :: !EqualsIgnoreCase(Key(d), s))
  {
    if EqualsIgnoreCase(Key(c), s) {
      ParseMatchingKey(s, c);
    } else if Parse(Some(s)) == c {
      forall d ensures !EqualsIgnoreCase(Key(d), s) {
        if EqualsIgnoreCase(Key(d), s) {
          ParseMatchingKey(s, d);
        }
      }
    }
  }

  /** Every command round-trips through its key. */
  lemma ParseKey(c: Command)
    ensures Parse(Some(Key(c))) == c
  {
    ParseIff(Key(c), c);
  }

  /** `parse` ignores case: strings that differ only in case parse alike. */
  lemma ParseIgnoresCase(a: string, b: string)
    requires EqualsIgnoreCase(a, b)
    ensures Parse(Some(a)) == Parse(Some(b))
  {
    EqualsIgnoreCaseIsLowerEquality(a, b);
    forall d ensures EqualsIgnoreCase(Key(d), a) == EqualsIgnoreCase(Key(d), b) {
      EqualsIgnoreCaseIsLowerEquality(Key(d), a);
      EqualsIgnoreCaseIsLowerEquality(Key(d), b);
    }
    Enums.FindFirstSamePredicate(Values(), d => EqualsIgnoreCase(Key(d), a), d => EqualsIgnoreCase(Key(d), b));
  }
}

/** The orientations a creative can ask the SDK to force. */
module MraidOrientation {
  import opened Outcomes
  import opened Text
  import Enums

  datatype Orientation = Portrait | Landscape | NoOrientation

  function Values(): seq<Orientation> {
    [Portrait, Landscape, NoOrientation]
  }

  function Key(o: Orientation): string {
    match o
    case Portrait => "portrait"
    case Landscape => "landscape"
    case NoOrientation => "none"
  }

  /** `parse`: the orientation whose key equals the given one ignoring
      case, and `NONE` for a null or unknown key. */
  function Parse(key: Option<string>): (o: Orientation)
    ensures key.None? ==> o == NoOrientation
    ensures o != NoOrientation ==> key.Some? && EqualsIgnoreCase(Key(o), key.value)
  {
    match key
    case None => NoOrientation
    case Some(k) => Enums.FindFirst(Values(), o => EqualsIgnoreCase(Key(o), k)).GetOr(NoOrientation)
  }

  /** Each orientation is parsed from its key in any case, and a string
      matching no key gives `NONE`. */
  lemma ParseIff(s: string, o: Orientation)
    ensures Parse(Some(s)) == o <==>
              EqualsIgnoreCase(Key(o), s)
              || (o == NoOrientation && forall d :: !EqualsIgnoreCase(Key(d), s))
  {
    var p := (d: Orientation) => EqualsIgnoreCase(Key(d), s);
    if EqualsIgnoreCase(Key(o), s) {
      // The three keys have three different lengths.
      var k := match o case Portrait => 0 case Landscape => 1 case NoOrientation => 2;
      assert Values()[k] == o;
      assert forall i :: 0 <= i < |Values()| && i != k ==> |Key(Values()[i])| != |Key(o)|;
      Enums.FindFirstUnique(Values(), p, k);
    } else if Parse(Some(s)) == o {
      assert Values() == [Portrait, Landscape, NoOrientation];
      assert forall i :: 0 <= i < |Values()| ==> !p(Values()[i]);
    }
  }
}

/** The `setOrientationProperties` request: whether the ad may follow the
    device's rotation and which orientation it forces. */
module MraidOrientationProperties {
  import opened Outcomes
  import opened Text
  import MraidOrientation

  datatype Properties = Properties(allowOrientationChange: bool, forceOrientation: MraidOrientation.Orientation)

  const AllowOrientationChangeKey := "allowOrientationChange"
  const ForceOrientationKey := "forceOrientation"

  /** `String.toBoolean()`: true exactly for "true" in any case. */
  predicate ToBoolean(s: string) {
    EqualsIgnoreCase(s, "true")
  }

  function Lookup(params: map<string, string>, key: string): Option<string> {
    if key in params then Some(params[key]) else None
  }

  /** `create`: defined for every parameter map. A missing
      `allowOrientationChange` allows changes; a missing or unknown
      `forceOrientation` forces nothing. */
  function Create(params: map<string, string>): (p: Properties)
    ensures AllowOrientationChangeKey !in params ==> p.allowOrientationChange
    ensures AllowOrientationChangeKey in params ==>
              (p.allowOrientationChange <==> EqualsIgnoreCase(params[AllowOrientationChangeKey], "true"))
    ensures ForceOrientationKey !in params ==> p.forceOrientation == MraidOrientation.NoOrientation
  {
    Properties(
      match Lookup(params, AllowOrientationChangeKey)
      case None => true
      case Some(v) => ToBoolean(v),
      MraidOrientation.Parse(Lookup(params, ForceOrientationKey)))
  }

  /** The forced orientation is the one named by `forceOrientation`,
      ignoring case. */
  lemma CreateForcesNamedOrientation(params: map<string, string>, o: MraidOrientation.Orientation)
    requires ForceOrientationKey in params
    requires EqualsIgnoreCase(MraidOrientation.Key(o), params[ForceOrientationKey])
    ensures Create(params).forceOrientation == o
  {
    MraidOrientation.ParseIff(params[ForceOrientationKey], o);
  }
}
