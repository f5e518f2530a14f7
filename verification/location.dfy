/**
 * Extracting the last known location from the text of `dumpsys location`
 * (`get_device_location`, adb_geofence.py lines 45-63). The two numbers are
 * kept as the matched text; their conversion with `float()` is not modelled.
 */
module Location {
  import opened Wrappers
  import opened Patterns

  /** What `get_device_location` does with one dump, once the command has run. */
  datatype Reading =
    | Coordinates(latitude: string, longitude: string)  // returns `(latitude, longitude)`
    | Absent                                            // returns `(None, None)`
    | Crash                                             // `.end()` is called on `None` and raises

  /** Parse the dump the way lines 45-63 do. */
  function ReadLocation(output: string): Reading
  {
    match FindMarker(output, 0)
    case None => Absent
    case Some((_, m)) => ReadAfterMarker(output[m..])
  }

  /**
   * The two searches of lines 49 and 50, on the text after the marker; the
   * second starts where the first token ends.
   */
  function ReadAfterMarker(rest: string): Reading
  {
    match FindNumeral(rest, 0)
    case None => Crash
    case Some((p1, e1)) =>
      var tail := rest[e1..];
      match FindNumeral(tail, 0)
      case None => Absent
      case Some((p2, e2)) => Coordinates(rest[p1..e1], tail[p2..e2])
  }

  /** After the first marker match, the reading depends only on the text that follows it. */
  lemma AfterMarker(output: string, i: nat, m: nat)
    requires FirstMarker(output, i, m)
    ensures m <= |output| && ReadLocation(output) == ReadAfterMarker(output[m..])
  {
    FindMarkerIsFirst(output, i, m);
  }

  /** Without the marker the dump gives no coordinates. */
  lemma NoMarkerIsAbsent(output: string)
    requires NoMarker(output)
    ensures ReadLocation(output) == Absent
  {
    FindMarkerNone(output);
  }

  /** A marker followed by no number at all makes the function raise. */
  lemma NoNumberCrashes(output: string, i: nat, m: nat)
    requires FirstMarker(output, i, m)
    requires NoToken(output[m..])
    ensures ReadLocation(output) == Crash
  {
    AfterMarker(output, i, m);
    FindNumeralNone(output[m..]);
  }

  /** A marker followed by exactly one number gives no coordinates. */
  lemma OneNumberIsAbsent(output: string, i: nat, m: nat, p: nat, e: nat)
    requires FirstMarker(output, i, m)
    requires FirstToken(output[m..], p, e)
    requires NoToken(output[m + e..])
    ensures ReadLocation(output) == Absent
  {
    AfterMarker(output, i, m);
    var rest := output[m..];
    FindNumeralIsFirst(rest, p, e);
    assert rest[e..] == output[m + e..];
    FindNumeralNone(rest[e..]);
  }

  /** The first search's result in terms of the first token. */
  lemma TokenFound(t: string, p: nat, e: nat)
    requires FirstToken(t, p, e)
    ensures e <= |t| && FindNumeral(t, 0) == Some((p, e))
  {
    FindNumeralIsFirst(t, p, e);
  }

  /** When both searches succeed, their matches are the coordinates. */
  lemma BothSearchesFind(rest: string, p1: nat, e1: nat, p2: nat, e2: nat)
    requires e1 <= |rest| && FindNumeral(rest, 0) == Some((p1, e1))
    requires FindNumeral(rest[e1..], 0) == Some((p2, e2))
    ensures ReadAfterMarker(rest) == Coordinates(rest[p1..e1], rest[e1..][p2..e2])
  {
  }

  /** Two tokens found after the marker are the coordinates, read in text order. */
  lemma TwoTokensAfterMarker(rest: string, p1: nat, e1: nat, p2: nat, e2: nat)
    requires FirstToken(rest, p1, e1)
    requires FirstToken(rest[e1..], p2, e2)
    ensures ReadAfterMarker(rest) == Coordinates(rest[p1..e1], rest[e1..][p2..e2])
  {
    TokenFound(rest, p1, e1);
    TokenFound(rest[e1..], p2, e2);
    BothSearchesFind(rest, p1, e1, p2, e2);
  }

  /**
   * With two numbers after the marker, the latitude is the first token after
   * the marker and the longitude the first token after the latitude, so the
   * two never overlap and appear in text order.
   */
  lemma TwoNumbersAreCoordinates(output: string, i: nat, m: nat, p1: nat, e1: nat, p2: nat, e2: nat)
    requires FirstMarker(output, i, m)
    requires FirstToken(output[m..], p1, e1)
    requires FirstToken(output[m + e1..], p2, e2)
    ensures m + e1 + e2 <= |output|
    ensures ReadLocation(output) == Coordinates(output[m + p1..m + e1], output[m + e1 + p2..m + e1 + e2])
  {
    AfterMarker(output, i, m);
    SuffixSlices(output, m, e1, p1, e1, p2, e2);
    TwoTokensAfterMarker(output[m..], p1, e1, p2, e2);
  }

  /** Positions in a suffix `s[m..]` are positions in `s` shifted by `m`. */
  lemma SuffixSlices(s: string, m: nat, d: nat, a: nat, b: nat, c: nat, e: nat)
    requires m + d <= |s| && a <= b <= |s| - m && c <= e <= |s| - m - d
    ensures s[m..][d..] == s[m + d..]
    ensures s[m..][a..b] == s[m + a..m + b]
    ensures s[m..][d + c..d + e] == s[m + d + c..m + d + e]
  {
  }

  /** Whatever follows the marker, coordinates that come out of it are numerals. */
  lemma AfterMarkerNumerals(rest: string)
    requires ReadAfterMarker(rest).Coordinates?
    ensures IsNumeral(ReadAfterMarker(rest).latitude) && IsNumeral(ReadAfterMarker(rest).longitude)
  {
    var (p1, e1) := FindNumeral(rest, 0).value;
    var (p2, e2) := FindNumeral(rest[e1..], 0).value;
    FoundNumeral(rest, 0, p1, e1);
    FoundNumeral(rest[e1..], 0, p2, e2);
  }

  /** Both coordinates are numerals as the pattern defines them. */
  lemma CoordinatesAreNumerals(output: string)
    requires ReadLocation(output).Coordinates?
    ensures IsNumeral(ReadLocation(output).latitude) && IsNumeral(ReadLocation(output).longitude)
  {
    var (_, m) := FindMarker(output, 0).value;
    AfterMarkerNumerals(output[m..]);
  }
}
