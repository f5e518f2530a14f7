/**
 * Parsing the output of `adb devices` into the serials of the online devices
 * (adb_geofence.py, lines 114-117 of `main`).
 */
module DeviceList {
  import opened Text

  /** A line of `adb devices` output names an online device when it contains this. */
  const OnlineMarker := "\tdevice"

  /** `line.split('\t')[0]`: the text of the line before its first tab. */
  function Serial(line: string): (serial: string)
    ensures serial <= line
    ensures '\t' !in serial
    ensures |serial| == |line| || line[|serial|] == '\t'
  {
    SplitOn(line, '\t')[0]
  }

  /** The serials of the lines that mention an online device, in line order. */
  function Select(lines: seq<string>): (serials: seq<string>)
    ensures |serials| <= |lines|
    ensures forall i :: 0 <= i < |serials| ==> '\t' !in serials[i]
  {
    if |lines| == 0 then []
    else (if Contains(lines[0], OnlineMarker) then [Serial(lines[0])] else []) + Select(lines[1..])
  }

  /** Selection works line by line: it distributes over concatenation, so the serials keep the lines' order. */
  lemma {:induction false} SelectAppend(a: seq<string>, b: seq<string>)
    ensures Select(a + b) == Select(a) + Select(b)
    decreases |a|
  {
    if |a| > 0 {
      SelectAppend(a[1..], b);
      assert (a + b)[1..] == a[1..] + b;
    } else {
      assert a + b == b;
    }
  }

  /** A serial is selected exactly when some line mentioning an online device starts with it. */
  lemma {:induction false} SelectMembers(lines: seq<string>, x: string)
    ensures x in Select(lines) <==> exists l :: l in lines && Contains(l, OnlineMarker) && Serial(l) == x
    decreases |lines|
  {
    if |lines| > 0 {
      SelectMembers(lines[1..], x);
      assert forall l :: l in lines <==> l == lines[0] || l in lines[1..];
    }
  }

  /** The device serials listed by `adb devices`: every line after the first is considered. */
  function ParseDevices(output: string): (devices: seq<string>)
    ensures |devices| <= Count(output, '\n')
    ensures forall i :: 0 <= i < |devices| ==> '\t' !in devices[i]
  {
    Select(SplitOn(output, '\n')[1..])
  }

  /** The first line is always dropped, whatever it says. */
  lemma ParseDevicesDropsHeader(header: string, body: string)
    requires '\n' !in header
    ensures ParseDevices(header + "\n" + body) == Select(SplitOn(body, '\n'))
  {
    SplitPrefix(header, body, '\n');
  }

  /** Output made of a header line and further lines yields the selection of the further lines. */
  lemma ParseDevicesLines(header: string, lines: seq<string>)
    requires '\n' !in header
    requires forall i :: 0 <= i < |lines| ==> '\n' !in lines[i]
    ensures ParseDevices(Join([header] + lines, '\n')) == Select(lines)
  {
    if |lines| == 0 {
      SplitNoSep(header, '\n');
    } else {
      assert ([header] + lines)[1..] == lines;
      ParseDevicesDropsHeader(header, Join(lines, '\n'));
      SplitJoin(lines, '\n');
    }
  }

  /** A line whose state field starts with `device` is online, and its serial is the text before the tab. */
  lemma OnlineLine(serial: string, state: string)
    requires '\t' !in serial
    requires "device" <= state
    ensures Contains(serial + "\t" + state, OnlineMarker)
    ensures Serial(serial + "\t" + state) == serial
  {
    ContainsSkip(serial, "\t" + state, OnlineMarker);
    assert serial + "\t" + state == serial + ("\t" + state);
    assert OnlineMarker == "\t" + "device";
    assert OnlineMarker <= "\t" + state;
    SplitPrefix(serial, state, '\t');
  }

  /** A line in any other state (`offline`, `unauthorized`, ...) is not online. */
  lemma OtherStateLine(serial: string, state: string)
    requires '\t' !in serial && '\t' !in state
    requires !("device" <= state)
    ensures !Contains(serial + "\t" + state, OnlineMarker)
  {
    ContainsSkip(serial, "\t" + state, OnlineMarker);
    assert serial + "\t" + state == serial + ("\t" + state);
    assert OnlineMarker == "\t" + "device";
    assert ("\t" + state)[1..] == state;
    NotContainsFirst(state, OnlineMarker);
  }

  /** Output of a header and two lines, each ended by a line feed, is read as those two lines and an empty last one. */
  lemma ThreeLines(header: string, a: string, b: string)
    requires '\n' !in header && '\n' !in a && '\n' !in b
    ensures ParseDevices(header + "\n" + a + "\n" + b + "\n") == Select([a, b, ""])
  {
    assert header + "\n" + a + "\n" + b + "\n" == header + "\n" + (a + "\n" + (b + "\n" + ""));
    ParseDevicesDropsHeader(header, a + "\n" + (b + "\n" + ""));
    SplitPrefix(a, b + "\n" + "", '\n');
    SplitPrefix(b, "", '\n');
  }

  lemma SelectFirstOnly(a: string, b: string)
    requires Contains(a, OnlineMarker) && !Contains(b, OnlineMarker)
    ensures Select([a, b, ""]) == [Serial(a)]
  {
    var lines := [a, b, ""];
    assert lines[1..][1..] == [""];
    assert Select(lines[1..][1..]) == [];
    assert Select(lines[1..]) == [];
  }

  /** A header, one online device and one device in another state: only the online serial is listed. */
  lemma ParseOneOnline(header: string, serial: string, online: string, other: string, state: string)
    requires '\n' !in header
    requires '\t' !in serial && '\n' !in serial && '\t' !in online && '\n' !in online
    requires '\t' !in other && '\n' !in other && '\t' !in state && '\n' !in state
    requires "device" <= online && !("device" <= state)
    ensures ParseDevices(header + "\n" + serial + "\t" + online + "\n" + other + "\t" + state + "\n") == [serial]
  {
    var a, b := serial + "\t" + online, other + "\t" + state;
    assert header + "\n" + serial + "\t" + online + "\n" + other + "\t" + state + "\n" == header + "\n" + a + "\n" + b + "\n";
    ThreeLines(header, a, b);
    OnlineLine(serial, online);
    OtherStateLine(other, state);
    SelectFirstOnly(a, b);
  }

  /**
   * `List of devices attached`, `ABC123<TAB>device`, `XYZ999<TAB>unauthorized`
   * gives exactly `ABC123`. The words are bound to their literal values
   * through parameters, so that the verifier reasons about them word by word
   * instead of unfolding the parser over the whole listing.
   */
  lemma ParseDevicesExample(header: string, serial: string, online: string, other: string, state: string)
    requires header == "List of devices attached" && serial == "ABC123" && online == "device"
    requires other == "XYZ999" && state == "unauthorized"
    ensures ParseDevices(header + "\n" + serial + "\t" + online + "\n" + other + "\t" + state + "\n") == ["ABC123"]
  {
    assert state[0] != "device"[0];
    ParseOneOnline(header, serial, online, other, state);
  }
}
