/**
 * The two regular expressions searched by `get_device_location`
 * (adb_geofence.py, lines 45, 49 and 50), with the semantics of Python's `re`
 * module: `re.search` reports the match that starts leftmost, and at a given
 * start the backtracking matcher tries the alternatives from left to right and
 * lets every quantifier take as much as it can.
 *
 * Each pattern is given twice: as a matcher that computes the end of the match
 * at a given start, and as a ghost predicate saying which substrings the
 * pattern matches there. The `...Iff` lemmas show that the two agree.
 */
module Patterns {
  import opened Wrappers
  import opened Text

  // ---------------------------------------------------------------------------
  // The marker `last\s+location`
  // ---------------------------------------------------------------------------

  /** `s[i..e]` is `last`, one or more whitespace characters, then `location`. */
  ghost predicate IsMarkerMatch(s: string, i: nat, e: nat) {
    && i + 13 <= e <= |s|
    && s[i..i + 4] == "last"
    && s[e - 8..e] == "location"
    && forall k :: i + 4 <= k < e - 8 ==> IsSpace(s[k])
  }

  /** `(i, e)` is the match `re.search` reports: no match starts before `i`. */
  ghost predicate FirstMarker(s: string, i: nat, e: nat) {
    IsMarkerMatch(s, i, e) && forall i': nat, e': nat :: i' < i ==> !IsMarkerMatch(s, i', e')
  }

  /** The end of the marker match starting at `i`, if there is one. */
  function MarkerEndAt(s: string, i: nat): (e: Option<nat>)
    ensures e.Some? ==> e.value <= |s|
  {
    if i + 4 <= |s| && s[i..i + 4] == "last" then
      var j := i + 4 + Span(s, i + 4, Space);
      if j > i + 4 && j + 8 <= |s| && s[j..j + 8] == "location" then Some(j + 8) else None
    else None
  }

  /** The matcher finds exactly the marker matches; in particular a start has at most one. */
  lemma MarkerEndAtIff(s: string, i: nat, e: nat)
    ensures MarkerEndAt(s, i) == Some(e) <==> IsMarkerMatch(s, i, e)
  {
    if i + 4 <= |s| {
      SpanRun(s, i + 4, Space);
    }
    if IsMarkerMatch(s, i, e) {
      assert s[e - 8] == "location"[0];
      SpanExact(s, i + 4, e - 8 - (i + 4), Space);
    }
  }

  /** `re.search(r'last\s+location', s[from:])`, positions counted in `s`. */
  function FindMarker(s: string, from: nat): (r: Option<(nat, nat)>)
    ensures r.Some? ==> from <= r.value.0 && r.value.1 <= |s|
    decreases |s| - from
  {
    if from > |s| then None
    else match MarkerEndAt(s, from)
      case Some(e) => Some((from, e))
      case None => FindMarker(s, from + 1)
  }

  /** The search stops at the first start where the matcher succeeds. */
  lemma {:induction false} FindMarkerLeftmost(s: string, from: nat)
    ensures var r := FindMarker(s, from);
      && (r.Some? ==> MarkerEndAt(s, r.value.0) == Some(r.value.1))
      && (r.Some? ==> forall i :: from <= i < r.value.0 ==> MarkerEndAt(s, i) == None)
      && (r.None? ==> forall i :: from <= i ==> MarkerEndAt(s, i) == None)
    decreases |s| - from
  {
    if from <= |s| && MarkerEndAt(s, from).None? {
      FindMarkerLeftmost(s, from + 1);
    }
  }

  /** The search reports the first marker match. */
  lemma FindMarkerIsFirst(s: string, i: nat, e: nat)
    ensures FindMarker(s, 0) == Some((i, e)) <==> FirstMarker(s, i, e)
  {
    FindMarkerLeftmost(s, 0);
    forall i': nat, e': nat {
      MarkerEndAtIff(s, i', e');
    }
    if FirstMarker(s, i, e) {
      var r := FindMarker(s, 0);
      assert r.Some?;
    }
  }

  /** The search reports nothing exactly when the text holds no marker. */
  lemma FindMarkerNone(s: string)
    ensures FindMarker(s, 0).None? <==> NoMarker(s)
  {
    FindMarkerLeftmost(s, 0);
    forall i: nat, e: nat {
      MarkerEndAtIff(s, i, e);
    }
  }

  // ---------------------------------------------------------------------------
  // The numeral `[-+]?\d*\.\d+|\d+`
  // ---------------------------------------------------------------------------

  predicate IsSign(c: char) {
    c == '+' || c == '-'
  }

  ghost predicate AllDigits(w: string) {
    forall k :: 0 <= k < |w| ==> IsDigit(w[k])
  }

  /** `w` is digits, the point at index `d`, then at least one digit. */
  ghost predicate PointAt(w: string, d: int) {
    0 <= d && d + 1 < |w| && w[d] == '.' && AllDigits(w[..d]) && AllDigits(w[d + 1..])
  }

  /** `w` is matched in full by `\d*\.\d+`. */
  ghost predicate IsUnsignedDecimal(w: string) {
    exists d :: PointAt(w, d)
  }

  /** `w` is matched in full by `[-+]?\d*\.\d+`. */
  ghost predicate IsDecimal(w: string) {
    IsUnsignedDecimal(w) || (|w| > 0 && IsSign(w[0]) && IsUnsignedDecimal(w[1..]))
  }

  /** `w` is matched in full by `\d+`. */
  ghost predicate IsInteger(w: string) {
    |w| > 0 && AllDigits(w)
  }

  /** No digit follows index `e`, so a greedy `\d+` that ends there takes all it can. */
  ghost predicate DigitsEnd(t: string, e: nat)
    requires e <= |t|
  {
    e == |t| || !IsDigit(t[e])
  }

  /** The first alternative matches `t[p..e]` at `p`. */
  ghost predicate DecimalMatch(t: string, p: nat, e: nat) {
    p <= e <= |t| && IsDecimal(t[p..e]) && DigitsEnd(t, e)
  }

  /** The second alternative matches `t[p..e]` at `p`. */
  ghost predicate IntegerMatch(t: string, p: nat, e: nat) {
    p <= e <= |t| && IsInteger(t[p..e]) && DigitsEnd(t, e)
  }

  /** The whole pattern matches `t[p..e]` at `p`: the second alternative is tried only when the first fails. */
  ghost predicate TokenMatch(t: string, p: nat, e: nat) {
    DecimalMatch(t, p, e) || (IntegerMatch(t, p, e) && forall e': nat :: !DecimalMatch(t, p, e'))
  }

  /** `(p, e)` is the match `re.search` reports: no match starts before `p`. */
  ghost predicate FirstToken(t: string, p: nat, e: nat) {
    TokenMatch(t, p, e) && forall p': nat, e': nat :: p' < p ==> !TokenMatch(t, p', e')
  }

  /** No token matches anywhere in `t`. */
  ghost predicate NoToken(t: string) {
    forall p: nat, e: nat :: !TokenMatch(t, p, e)
  }

  /** No marker matches anywhere in `s`. */
  ghost predicate NoMarker(s: string) {
    forall i: nat, e: nat :: !IsMarkerMatch(s, i, e)
  }

  /** A matched token reads as a decimal or an integer. */
  ghost predicate IsNumeral(w: string) {
    IsDecimal(w) || IsInteger(w)
  }

  /** End of the first alternative tried at `p`: optional sign, greedy digits, a point, greedy digits. */
  function DecimalEndAt(t: string, p: nat): Option<nat>
  {
    var q := if p < |t| && IsSign(t[p]) then p + 1 else p;
    var dot := q + Span(t, q, Digit);
    var frac := Span(t, dot + 1, Digit);
    if dot < |t| && t[dot] == '.' && frac > 0 then Some(dot + 1 + frac) else None
  }

  /** End of the second alternative tried at `p`: greedy digits. */
  function IntegerEndAt(t: string, p: nat): Option<nat>
  {
    var n := Span(t, p, Digit);
    if n > 0 then Some(p + n) else None
  }

  /** End of the match of the whole pattern at `p`. */
  function NumeralEndAt(t: string, p: nat): (e: Option<nat>)
    ensures e.Some? ==> p < e.value <= |t|
  {
    if DecimalEndAt(t, p).Some? then DecimalEndAt(t, p) else IntegerEndAt(t, p)
  }

  /** A slice is all digits exactly when every index in its range holds a digit. */
  lemma DigitsSlice(t: string, i: nat, j: nat)
    requires i <= j <= |t|
    ensures AllDigits(t[i..j]) <==> forall k :: i <= k < j ==> IsDigit(t[k])
  {
    assert forall k :: i <= k < j ==> t[i..j][k - i] == t[k];
  }

  lemma DigitsExact(t: string, i: nat, n: nat)
    requires i + n <= |t|
    requires AllDigits(t[i..i + n])
    requires DigitsEnd(t, i + n)
    ensures Span(t, i, Digit) == n
  {
    DigitsSlice(t, i, i + n);
    SpanExact(t, i, n, Digit);
  }

  /** An unsigned decimal at `q` that cannot be extended is the one the matcher finds. */
  lemma UnsignedDecimalAt(t: string, q: nat, e: nat)
    requires q <= e <= |t|
    requires IsUnsignedDecimal(t[q..e]) && DigitsEnd(t, e)
    ensures var dot := q + Span(t, q, Digit);
      dot < |t| && t[dot] == '.' && dot + 1 < e && Span(t, dot + 1, Digit) == e - dot - 1
  {
    var w := t[q..e];
    var d :| PointAt(w, d);
    assert w[..d] == t[q..q + d];
    assert w[d] == t[q + d];
    DigitsExact(t, q, d);
    assert w[d + 1..] == t[q + d + 1..e];
    DigitsExact(t, q + d + 1, e - (q + d + 1));
  }

  /** Digits, the point and digits, each run as long as it can be, make an unsigned decimal. */
  lemma UnsignedDecimalFrom(t: string, q: nat, d: nat, f: nat)
    requires q + d + 1 + f <= |t| && f > 0
    requires Span(t, q, Digit) == d && t[q + d] == '.' && Span(t, q + d + 1, Digit) == f
    ensures IsUnsignedDecimal(t[q..q + d + 1 + f]) && DigitsEnd(t, q + d + 1 + f)
  {
    var e := q + d + 1 + f;
    SpanRun(t, q, Digit);
    SpanRun(t, q + d + 1, Digit);
    DigitsSlice(t, q, q + d);
    DigitsSlice(t, q + d + 1, e);
    var w := t[q..e];
    assert w[d] == t[q + d];
    assert w[..d] == t[q..q + d];
    assert w[d + 1..] == t[q + d + 1..e];
    assert PointAt(w, d);
  }

  lemma DecimalEndAtSound(t: string, p: nat, e: nat)
    requires DecimalEndAt(t, p) == Some(e)
    ensures DecimalMatch(t, p, e)
  {
    var q := if p < |t| && IsSign(t[p]) then p + 1 else p;
    var d := Span(t, q, Digit);
    UnsignedDecimalFrom(t, q, d, Span(t, q + d + 1, Digit));
    if q == p + 1 {
      assert t[p..e][1..] == t[q..e];
    }
  }

  /** An unsigned decimal starts with a digit or the point, never with a sign. */
  lemma UnsignedDecimalStart(w: string)
    requires IsUnsignedDecimal(w)
    ensures w[0] == '.' || IsDigit(w[0])
  {
  }

  lemma DecimalEndAtComplete(t: string, p: nat, e: nat)
    requires DecimalMatch(t, p, e)
    ensures DecimalEndAt(t, p) == Some(e)
  {
    var w := t[p..e];
    if p < |t| && IsSign(t[p]) {
      if IsUnsignedDecimal(w) {
        UnsignedDecimalStart(w);
      }
      assert w[1..] == t[p + 1..e];
      UnsignedDecimalAt(t, p + 1, e);
    } else {
      UnsignedDecimalAt(t, p, e);
    }
  }

  lemma DecimalEndAtIff(t: string, p: nat, e: nat)
    ensures DecimalEndAt(t, p) == Some(e) <==> DecimalMatch(t, p, e)
  {
    if DecimalEndAt(t, p) == Some(e) {
      DecimalEndAtSound(t, p, e);
    }
    if DecimalMatch(t, p, e) {
      DecimalEndAtComplete(t, p, e);
    }
  }

  lemma IntegerEndAtIff(t: string, p: nat, e: nat)
    ensures IntegerEndAt(t, p) == Some(e) <==> IntegerMatch(t, p, e)
  {
    SpanRun(t, p, Digit);
    if IntegerMatch(t, p, e) {
      DigitsExact(t, p, e - p);
    }
  }

  /** The matcher finds exactly the matches of the whole pattern. */
  lemma NumeralEndAtIff(t: string, p: nat, e: nat)
    ensures NumeralEndAt(t, p) == Some(e) <==> TokenMatch(t, p, e)
  {
    DecimalEndAtIff(t, p, e);
    IntegerEndAtIff(t, p, e);
    match DecimalEndAt(t, p)
    case Some(d) =>
      DecimalEndAtIff(t, p, d);
    case None =>
      forall e' {
        DecimalEndAtIff(t, p, e');
      }
  }

  /**
   * A sign in front of a plain integer is not part of the match: the first
   * alternative fails for want of a point, and the second does not allow a sign.
   */
  lemma SignNotTakenByInteger(t: string, p: nat, n: nat)
    requires p + 1 + n <= |t| && IsSign(t[p]) && n > 0
    requires AllDigits(t[p + 1..p + 1 + n])
    requires p + 1 + n == |t| || (t[p + 1 + n] != '.' && !IsDigit(t[p + 1 + n]))
    ensures NumeralEndAt(t, p) == None
    ensures NumeralEndAt(t, p + 1) == Some(p + 1 + n)
  {
    DigitsExact(t, p + 1, n);
  }

  /** No match starts at a character that is neither a sign, a digit nor the point. */
  lemma NoNumeralAt(t: string, p: nat)
    requires p < |t| && !IsSign(t[p]) && !IsDigit(t[p]) && t[p] != '.'
    ensures NumeralEndAt(t, p) == None
  {
  }

  /** `re.search(r'[-+]?\d*\.\d+|\d+', t[from:])`, positions counted in `t`. */
  function FindNumeral(t: string, from: nat): (r: Option<(nat, nat)>)
    ensures r.Some? ==> from <= r.value.0 < r.value.1 <= |t|
    decreases |t| - from
  {
    if from >= |t| then None
    else match NumeralEndAt(t, from)
      case Some(e) => Some((from, e))
      case None => FindNumeral(t, from + 1)
  }

  /** The search stops at the first start where the matcher succeeds. */
  lemma {:induction false} FindNumeralLeftmost(t: string, from: nat)
    ensures var r := FindNumeral(t, from);
      && (r.Some? ==> NumeralEndAt(t, r.value.0) == Some(r.value.1))
      && (r.Some? ==> forall p :: from <= p < r.value.0 ==> NumeralEndAt(t, p) == None)
      && (r.None? ==> forall p :: from <= p ==> NumeralEndAt(t, p) == None)
    decreases |t| - from
  {
    if from < |t| && NumeralEndAt(t, from).None? {
      FindNumeralLeftmost(t, from + 1);
    }
  }

  /** The search reports the first token. */
  lemma FindNumeralIsFirst(t: string, p: nat, e: nat)
    ensures FindNumeral(t, 0) == Some((p, e)) <==> FirstToken(t, p, e)
  {
    FindNumeralLeftmost(t, 0);
    forall p': nat, e': nat {
      NumeralEndAtIff(t, p', e');
    }
    if FirstToken(t, p, e) {
      var r := FindNumeral(t, 0);
      assert r.Some?;
    }
  }

  /** The search reports nothing exactly when the text holds no token. */
  lemma FindNumeralNone(t: string)
    ensures FindNumeral(t, 0).None? <==> NoToken(t)
  {
    FindNumeralLeftmost(t, 0);
    forall p: nat, e: nat {
      NumeralEndAtIff(t, p, e);
    }
  }

  /** What the search reports is a numeral. */
  lemma FoundNumeral(t: string, from: nat, p: nat, e: nat)
    requires FindNumeral(t, from) == Some((p, e))
    ensures IsNumeral(t[p..e])
  {
    FindNumeralLeftmost(t, from);
    NumeralEndAtIff(t, p, e);
  }
}
