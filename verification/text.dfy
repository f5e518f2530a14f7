/**
 * The small part of Python's `str` behaviour that the script relies on:
 * character classes, substring membership (`sub in s`), `s.split(sep)` for a
 * one-character separator, and `s.split()` with no argument.
 * Character classes are ASCII: `\d` is 0-9, and whitespace is space, tab,
 * line feed, carriage return, vertical tab and form feed.
 */
module Text {

  predicate IsSpace(c: char) {
    c == ' ' || c == '\t' || c == '\n' || c == '\r' || c == '\U{000B}' || c == '\U{000C}'
  }

  predicate IsDigit(c: char) {
    '0' <= c <= '9'
  }

  predicate NoSpace(w: string) {
    forall k :: 0 <= k < |w| ==> !IsSpace(w[k])
  }

  /** The character classes the script's patterns use: `\s`, `\S` and `\d`. */
  datatype CharClass = Space | NonSpace | Digit

  predicate InClass(c: char, cls: CharClass) {
    match cls
    case Space => IsSpace(c)
    case NonSpace => !IsSpace(c)
    case Digit => IsDigit(c)
  }

  /** Length of the longest run of characters of class `cls` that starts at index `i`. */
  function Span(s: string, i: nat, cls: CharClass): (n: nat)
    ensures n == 0 || i + n <= |s|
    decreases |s| - i
  {
    if i < |s| && InClass(s[i], cls) then 1 + Span(s, i + 1, cls) else 0
  }

  /** The run `Span` measures is all of class `cls` and cannot be extended. */
  lemma {:induction false} SpanRun(s: string, i: nat, cls: CharClass)
    ensures var n := Span(s, i, cls);
      && (forall k :: i <= k < i + n ==> InClass(s[k], cls))
      && (i + n >= |s| || !InClass(s[i + n], cls))
    decreases |s| - i
  {
    if i < |s| && InClass(s[i], cls) {
      SpanRun(s, i + 1, cls);
    }
  }

  /** A run is the longest one exactly when it cannot be extended. */
  lemma {:induction false} SpanExact(s: string, i: nat, n: nat, cls: CharClass)
    requires i + n <= |s|
    requires forall k :: i <= k < i + n ==> InClass(s[k], cls)
    requires i + n == |s| || !InClass(s[i + n], cls)
    ensures Span(s, i, cls) == n
    decreases n
  {
    if n > 0 {
      SpanExact(s, i + 1, n - 1, cls);
    }
  }

  /** `sub` occurs in `s` starting at index `i`. */
  ghost predicate OccursAt(s: string, sub: string, i: int) {
    0 <= i && i + |sub| <= |s| && s[i..i + |sub|] == sub
  }

  /** Python's `sub in s`. */
  function Contains(s: string, sub: string): bool
    decreases |s|
  {
    if sub <= s then true
    else if |s| == 0 then false
    else Contains(s[1..], sub)
  }

  /** `Contains` holds exactly when `sub` occurs at some index of `s`. */
  lemma {:induction false} ContainsIff(s: string, sub: string)
    ensures Contains(s, sub) <==> exists i :: OccursAt(s, sub, i)
    decreases |s|
  {
    if sub <= s {
      assert OccursAt(s, sub, 0);
    } else if |s| > 0 {
      ContainsIff(s[1..], sub);
      if Contains(s[1..], sub) {
        var i :| OccursAt(s[1..], sub, i);
        assert s[1..][i..i + |sub|] == s[i + 1..i + 1 + |sub|];
        assert OccursAt(s, sub, i + 1);
      }
      if exists i :: OccursAt(s, sub, i) {
        var i :| OccursAt(s, sub, i);
        if i > 0 {
          assert s[1..][i - 1..i - 1 + |sub|] == s[i..i + |sub|];
          assert OccursAt(s[1..], sub, i - 1);
        }
      }
    }
  }

  /** Text that lacks the first character of `sub` cannot contain `sub`. */
  lemma NotContainsFirst(s: string, sub: string)
    requires |sub| > 0 && sub[0] !in s
    ensures !Contains(s, sub)
  {
  }

  /** A prefix lacking the first character of `sub` cannot hold the start of an occurrence. */
  lemma {:induction false} ContainsSkip(a: string, b: string, sub: string)
    requires |sub| > 0 && sub[0] !in a
    ensures Contains(a + b, sub) == Contains(b, sub)
    decreases |a|
  {
    if |a| > 0 {
      ContainsSkip(a[1..], b, sub);
      assert (a + b)[1..] == a[1..] + b;
    } else {
      assert a + b == b;
    }
  }

  /** Number of occurrences of `c` in `s`. */
  function Count(s: string, c: char): nat
  {
    if |s| == 0 then 0 else (if s[0] == c then 1 else 0) + Count(s[1..], c)
  }

  /** Python's `s.split(sep)` for a one-character separator. */
  function SplitOn(s: string, sep: char): (parts: seq<string>)
    ensures |parts| == Count(s, sep) + 1
    ensures forall i :: 0 <= i < |parts| ==> sep !in parts[i]
    ensures parts[0] <= s && (|parts[0]| == |s| || s[|parts[0]|] == sep)
    decreases |s|
  {
    if |s| == 0 then [""]
    else
      var rest := SplitOn(s[1..], sep);
      if s[0] == sep then [""] + rest else [[s[0]] + rest[0]] + rest[1..]
  }

  /** Python's `sep.join(parts)`. */
  function Join(parts: seq<string>, sep: char): string
  {
    if |parts| == 0 then ""
    else if |parts| == 1 then parts[0]
    else parts[0] + [sep] + Join(parts[1..], sep)
  }

  /** Splitting loses nothing: joining the pieces again gives back the text. */
  lemma {:induction false} JoinSplit(s: string, sep: char)
    ensures Join(SplitOn(s, sep), sep) == s
    decreases |s|
  {
    if |s| > 0 {
      var rest := SplitOn(s[1..], sep);
      JoinSplit(s[1..], sep);
      if s[0] == sep {
        assert ([""] + rest)[1..] == rest;
        assert s == [sep] + s[1..];
      } else {
        var parts := [[s[0]] + rest[0]] + rest[1..];
        if |rest| == 1 {
          assert s == [s[0]] + s[1..];
        } else {
          assert parts[1..] == rest[1..];
          assert Join(rest, sep) == rest[0] + [sep] + Join(rest[1..], sep);
          assert s == [s[0]] + s[1..];
        }
      }
    }
  }

  /** Text without the separator is a single piece. */
  lemma {:induction false} SplitNoSep(p: string, sep: char)
    requires sep !in p
    ensures SplitOn(p, sep) == [p]
    decreases |p|
  {
    if |p| > 0 {
      SplitNoSep(p[1..], sep);
      assert p == [p[0]] + p[1..];
    }
  }

  /** The first piece is the text before the first separator; the rest is split on its own. */
  lemma {:induction false} SplitPrefix(p: string, q: string, sep: char)
    requires sep !in p
    ensures SplitOn(p + [sep] + q, sep) == [p] + SplitOn(q, sep)
    decreases |p|
  {
    var s := p + [sep] + q;
    if |p| == 0 {
      assert s[1..] == q;
    } else {
      SplitPrefix(p[1..], q, sep);
      assert s[1..] == p[1..] + [sep] + q;
      assert [p[0]] + p[1..] == p;
    }
  }

  /** Joining separator-free pieces and splitting again gives back the pieces. */
  lemma {:induction false} SplitJoin(parts: seq<string>, sep: char)
    requires |parts| >= 1
    requires forall i :: 0 <= i < |parts| ==> sep !in parts[i]
    ensures SplitOn(Join(parts, sep), sep) == parts
    decreases |parts|
  {
    if |parts| == 1 {
      SplitNoSep(parts[0], sep);
    } else {
      SplitJoin(parts[1..], sep);
      SplitPrefix(parts[0], Join(parts[1..], sep), sep);
      assert [parts[0]] + parts[1..] == parts;
    }
  }

  /** Python's `s.split()` with no argument: the maximal runs of non-whitespace characters, in order. */
  function Fields(s: string): (fs: seq<string>)
    ensures forall i :: 0 <= i < |fs| ==> |fs[i]| > 0 && NoSpace(fs[i])
    decreases |s|
  {
    if |s| == 0 then []
    else if IsSpace(s[0]) then Fields(s[1..])
    else
      var n := Span(s, 0, NonSpace);
      SpanRun(s, 0, NonSpace);
      [s[..n]] + Fields(s[n..])
  }

  /** Whitespace before the first word, however much, is skipped. */
  lemma {:induction false} FieldsSkipSpace(ws: string, s: string)
    requires forall k :: 0 <= k < |ws| ==> IsSpace(ws[k])
    ensures Fields(ws + s) == Fields(s)
    decreases |ws|
  {
    if |ws| == 0 {
      assert ws + s == s;
    } else {
      assert (ws + s)[0] == ws[0];
      assert (ws + s)[1..] == ws[1..] + s;
      FieldsSkipSpace(ws[1..], s);
    }
  }

  /** A word followed by the end of the text or by whitespace is one field. */
  lemma FieldsWord(w: string, rest: string)
    requires |w| > 0 && NoSpace(w)
    requires rest == [] || IsSpace(rest[0])
    ensures Fields(w + rest) == [w] + Fields(rest)
  {
    var s := w + rest;
    SpanExact(s, 0, |w|, NonSpace);
    assert s[..|w|] == w;
    assert s[|w|..] == rest;
  }

  /** Joining non-empty, whitespace-free words with single spaces and splitting gives back the words. */
  lemma {:induction false} FieldsJoin(fs: seq<string>)
    requires forall i :: 0 <= i < |fs| ==> |fs[i]| > 0 && NoSpace(fs[i])
    ensures Fields(Join(fs, ' ')) == fs
    decreases |fs|
  {
    if |fs| == 1 {
      FieldsWord(fs[0], []);
      assert fs[0] + [] == fs[0];
    } else if |fs| > 1 {
      var tail := Join(fs[1..], ' ');
      FieldsJoin(fs[1..]);
      FieldsWord(fs[0], [' '] + tail);
      assert fs[0] + [' '] + tail == fs[0] + ([' '] + tail);
      assert ([' '] + tail)[1..] == tail;
      assert [fs[0]] + fs[1..] == fs;
    }
  }
}
