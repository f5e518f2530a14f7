/**
 * Finding the package of the resumed activity in the text of
 * `dumpsys activity activities` (`get_foreground_app`, adb_geofence.py
 * lines 64-85).
 */
module Foreground {
  import opened Wrappers
  import opened Text

  /** The text that marks the line naming the resumed activity. */
  const ResumedMarker := "mResumedActivity"

  /** Index of the first line that contains `sub`, as the `for` loop of lines 76-77 finds it. */
  function FirstLineWith(lines: seq<string>, sub: string): (r: Option<nat>)
    ensures r.Some? ==> r.value < |lines| && Contains(lines[r.value], sub)
    ensures r.Some? ==> forall j :: 0 <= j < r.value ==> !Contains(lines[j], sub)
    ensures r.None? ==> forall j :: 0 <= j < |lines| ==> !Contains(lines[j], sub)
  {
    if |lines| == 0 then None
    else if Contains(lines[0], sub) then Some(0)
    else match FirstLineWith(lines[1..], sub)
      case None => None
      case Some(j) => Some(j + 1)
  }

  /**
   * `line.split()[3].split('/')[0]`. A line with fewer than four fields
   * raises `IndexError`, which the function catches and answers with `None`.
   */
  function PackageOf(line: string): (pkg: Option<string>)
    ensures pkg.None? <==> |Fields(line)| < 4
    ensures pkg.Some? ==> pkg.value <= Fields(line)[3]
    ensures pkg.Some? ==> |pkg.value| == |Fields(line)[3]| || Fields(line)[3][|pkg.value|] == '/'
    ensures pkg.Some? ==> '/' !in pkg.value && NoSpace(pkg.value)
  {
    var fs := Fields(line);
    if |fs| < 4 then None
    else
      var pkg := SplitOn(fs[3], '/')[0];
      assert forall k :: 0 <= k < |pkg| ==> pkg[k] == fs[3][k];
      Some(pkg)
  }

  /** What `get_foreground_app` returns for the text of the dump. */
  function ForegroundApp(output: string): (app: Option<string>)
    ensures app.Some? ==> '/' !in app.value && NoSpace(app.value)
  {
    var lines := SplitOn(output, '\n');
    match FirstLineWith(lines, ResumedMarker)
    case None => None
    case Some(j) => PackageOf(lines[j])
  }

  /** The search finds the line at index `|pre|` when no line before it has `sub`. */
  lemma FirstLineAfter(pre: seq<string>, line: string, post: seq<string>, sub: string)
    requires forall j :: 0 <= j < |pre| ==> !Contains(pre[j], sub)
    requires Contains(line, sub)
    ensures FirstLineWith(pre + [line] + post, sub) == Some(|pre|)
  {
    var lines := pre + [line] + post;
    assert lines[|pre|] == line;
    assert forall j :: 0 <= j < |pre| ==> lines[j] == pre[j];
  }

  /**
   * Only the first line with the marker is examined: whatever it yields,
   * including `None` for a line with fewer than four fields, is the answer,
   * and the lines after it are never looked at.
   */
  lemma OnlyFirstMarkedLine(pre: seq<string>, line: string, post: seq<string>)
    requires forall j :: 0 <= j < |pre| ==> '\n' !in pre[j] && !Contains(pre[j], ResumedMarker)
    requires '\n' !in line && Contains(line, ResumedMarker)
    requires forall j :: 0 <= j < |post| ==> '\n' !in post[j]
    ensures ForegroundApp(Join(pre + [line] + post, '\n')) == PackageOf(line)
  {
    var lines := pre + [line] + post;
    forall j | 0 <= j < |lines|
      ensures '\n' !in lines[j]
    {
      if j < |pre| {
        assert lines[j] == pre[j];
      } else if j > |pre| {
        assert lines[j] == post[j - |pre| - 1];
      }
    }
    SplitJoin(lines, '\n');
    FirstLineAfter(pre, line, post, ResumedMarker);
    assert lines[|pre|] == line;
  }

  /** A dump in which no line has the marker gives `None`. */
  lemma NoMarkedLine(lines: seq<string>)
    requires |lines| > 0
    requires forall j :: 0 <= j < |lines| ==> '\n' !in lines[j] && !Contains(lines[j], ResumedMarker)
    ensures ForegroundApp(Join(lines, '\n')) == None
  {
    SplitJoin(lines, '\n');
  }

  /**
   * The fourth field, up to its first `/`, is the package: with three
   * fields before it, the name comes back whatever follows the `/` and
   * whatever fields come after.
   */
  lemma PackageOfFourthField(w0: string, w1: string, w2: string, pkg: string, activity: string, more: seq<string>)
    requires |w0| > 0 && NoSpace(w0) && |w1| > 0 && NoSpace(w1) && |w2| > 0 && NoSpace(w2)
    requires |pkg| > 0 && NoSpace(pkg) && '/' !in pkg && NoSpace(activity)
    requires forall j :: 0 <= j < |more| ==> |more[j]| > 0 && NoSpace(more[j])
    ensures PackageOf(Join([w0, w1, w2, pkg + "/" + activity] + more, ' ')) == Some(pkg)
  {
    var field := pkg + "/" + activity;
    var fs := [w0, w1, w2, field] + more;
    assert NoSpace(field) by {
      forall k | 0 <= k < |field|
        ensures !IsSpace(field[k])
      {
        if k < |pkg| {
          assert field[k] == pkg[k];
        } else if k > |pkg| {
          assert field[k] == activity[k - |pkg| - 1];
        }
      }
    }
    forall j | 0 <= j < |fs|
      ensures |fs[j]| > 0 && NoSpace(fs[j])
    {
      if j >= 4 {
        assert fs[j] == more[j - 4];
      }
    }
    FieldsJoin(fs);
    SplitPrefix(pkg, activity, '/');
  }

  /** The same with exactly five fields separated by single spaces, as `dumpsys` prints them. */
  lemma PackageOfFiveFields(w0: string, w1: string, w2: string, pkg: string, activity: string, w4: string)
    requires |w0| > 0 && NoSpace(w0) && |w1| > 0 && NoSpace(w1) && |w2| > 0 && NoSpace(w2)
    requires |pkg| > 0 && NoSpace(pkg) && '/' !in pkg && NoSpace(activity) && |w4| > 0 && NoSpace(w4)
    ensures PackageOf(w0 + " " + w1 + " " + w2 + " " + pkg + "/" + activity + " " + w4) == Some(pkg)
  {
    var field := pkg + "/" + activity;
    var fs := [w0, w1, w2, field] + [w4];
    PackageOfFourthField(w0, w1, w2, pkg, activity, [w4]);
    assert fs[1..] == [w1, w2, field, w4];
    assert fs[2..] == [w2, field, w4];
    assert fs[3..] == [field, w4];
    assert Join(fs[3..], ' ') == field + " " + w4;
    assert Join(fs[2..], ' ') == w2 + " " + field + " " + w4;
    assert Join(fs, ' ') == w0 + " " + w1 + " " + w2 + " " + pkg + "/" + activity + " " + w4;
  }

  /**
   * The package of a typical resumed-activity line. The words are bound to
   * their literal values through parameters, so that the verifier reasons
   * about them word by word instead of unfolding the whole line.
   */
  lemma PackageOfExample(line: string, w0: string, w1: string, w2: string, pkg: string, activity: string, w4: string)
    requires w0 == "mResumedActivity:" && w1 == "ActivityRecord{a1" && w2 == "u0"
    requires pkg == "com.whatsapp" && activity == ".Main" && w4 == "t12}"
    requires line == w0 + " " + w1 + " " + w2 + " " + pkg + "/" + activity + " " + w4
    ensures PackageOf(line) == Some("com.whatsapp")
  {
    PackageOfFiveFields(w0, w1, w2, pkg, activity, w4);
  }

  /**
   * `dumpsys` indents the line; the indentation is skipped, as `split()`
   * skips leading whitespace, and the package is the same.
   */
  lemma IndentedPackageOfExample(line: string, w0: string, w1: string, w2: string, pkg: string, activity: string, w4: string)
    requires w0 == "mResumedActivity:" && w1 == "ActivityRecord{a1" && w2 == "u0"
    requires pkg == "com.whatsapp" && activity == ".Main" && w4 == "t12}"
    requires line == "    " + (w0 + " " + w1 + " " + w2 + " " + pkg + "/" + activity + " " + w4)
    ensures PackageOf(line) == Some("com.whatsapp")
  {
    var unindented := w0 + " " + w1 + " " + w2 + " " + pkg + "/" + activity + " " + w4;
    FieldsSkipSpace("    ", unindented);
    PackageOfExample(unindented, w0, w1, w2, pkg, activity, w4);
  }
}
