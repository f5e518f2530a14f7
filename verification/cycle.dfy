/**
 * One pass of `main` (adb_geofence.py lines 103-141) as a pure function: the
 * `adb` commands become oracles, the geofence test is an uninterpreted
 * predicate, and the result records what happened to each device, which
 * `block_app` calls were queued and which of them force-stop an app.
 */
module Cycle {
  import opened Wrappers
  import opened DeviceList
  import opened Location
  import opened Foreground

  /** The packages `block_app` force-stops (line 88). */
  const Blocklist: seq<string> := ["com.whatsapp", "com.google.android.youtube"]

  /** A queued call `block_app(device_serial, foreground_app)`. */
  datatype Task = Task(device: string, package: string)

  /** What the loop body of lines 126-138 does for one device. */
  datatype Step =
    | Halt                                                            // the location command failed (`exit()`), line 50 raised, or the geofence test raised
    | Unlocated                                                       // `(None, None)`: "Could not get location"
    | Outside(latitude: string, longitude: string)                    // located, but outside the geofence
    | Inside(latitude: string, longitude: string, app: Option<string>) // located inside; the foreground app was asked for

  /**
   * The world outside the script during one cycle.
   * `locationDump(k)` is the output of the `k`-th `adb shell dumpsys location`
   * call of the cycle, or `None` when the command fails; the command names no
   * device, so only the call count is known. `inside` stands for
   * `is_within_geofence` on the two coordinates: `Some(b)` is its answer, and
   * `None` is the `ValueError` that `sin` raises at line 27 when `float()`
   * has turned a numeral too long for a double into infinity. `activityDump(k, serial)` is
   * the output of `dumpsys activity activities` for the `k`-th device, or
   * `None` when running or decoding it raises.
   */
  datatype Env = Env(
    locationDump: nat -> Option<string>,
    inside: (string, string) -> Option<bool>,
    activityDump: (nat, string) -> Option<string>)

  /** The result of one cycle. */
  datatype Outcome = Outcome(devices: seq<string>, steps: seq<Step>, tasks: seq<Task>, stops: seq<Task>)

  /** What `get_foreground_app` returns, given what its command produced. */
  function AppFromDump(dump: Option<string>): (app: Option<string>)
    ensures dump.None? ==> app.None?
    ensures app.Some? ==> '/' !in app.value
  {
    match dump
    case None => None
    case Some(output) => ForegroundApp(output)
  }

  /** Lines 126-138 for the `k`-th device. */
  function DeviceStep(k: nat, serial: string, env: Env): Step
  {
    match env.locationDump(k)
    case None => Halt
    case Some(dump) =>
      match ReadLocation(dump)
      case Crash => Halt
      case Absent => Unlocated
      case Coordinates(lat, lon) =>
        match env.inside(lat, lon)
        case None => Halt
        case Some(true) => Inside(lat, lon, AppFromDump(env.activityDump(k, serial)))
        case Some(false) => Outside(lat, lon)
  }

  /**
   * How the reading decides the step: the program halts exactly when the
   * command fails, the extraction raises or the geofence test raises on the
   * coordinates found, the device counts as unlocated
   * exactly when no coordinates were found, and located devices are split by
   * the geofence test.
   */
  lemma DeviceStepCases(k: nat, serial: string, env: Env)
    ensures var s := DeviceStep(k, serial, env);
      && (s.Halt? <==>
            || env.locationDump(k).None?
            || ReadLocation(env.locationDump(k).value).Crash?
            || (&& ReadLocation(env.locationDump(k).value).Coordinates?
                && env.inside(ReadLocation(env.locationDump(k).value).latitude,
                              ReadLocation(env.locationDump(k).value).longitude).None?))
      && (s.Unlocated? <==> env.locationDump(k).Some? && ReadLocation(env.locationDump(k).value).Absent?)
      && ((s.Outside? || s.Inside?) ==> ReadLocation(env.locationDump(k).value) == Coordinates(s.latitude, s.longitude))
      && (s.Outside? ==> env.inside(s.latitude, s.longitude) == Some(false))
      && (s.Inside? ==> env.inside(s.latitude, s.longitude) == Some(true) && s.app == AppFromDump(env.activityDump(k, serial)))
  {
  }

  /** The steps end with a halt, so the loop did not finish. */
  predicate Halted(steps: seq<Step>) {
    |steps| > 0 && steps[|steps| - 1].Halt?
  }

  /** The loop body as a function of the device's position and serial. */
  function Stepper(env: Env): (nat, string) -> Step {
    (k: nat, serial: string) => DeviceStep(k, serial, env)
  }

  /**
   * The loop of line 125 from the device numbered `k` on, with `step` the
   * loop body. Every device gets its step in order until one halts the program.
   */
  function Walk(devices: seq<string>, k: nat, step: (nat, string) -> Step): (steps: seq<Step>)
    ensures |steps| <= |devices|
    decreases |devices|
  {
    if |devices| == 0 then []
    else
      var s := step(k, devices[0]);
      if s.Halt? then [s] else [s] + Walk(devices[1..], k + 1, step)
  }

  /**
   * The `i`-th step is that of the `i`-th device, made with the `k + i`-th
   * location call; no step but the last halts, and the walk stops short of
   * the end of the list only by halting.
   */
  lemma {:induction false} WalkSteps(devices: seq<string>, k: nat, step: (nat, string) -> Step)
    ensures var steps := Walk(devices, k, step);
      && (forall i :: 0 <= i < |steps| ==> steps[i] == step(k + i, devices[i]))
      && (forall i :: 0 <= i < |steps| - 1 ==> !steps[i].Halt?)
      && (|steps| < |devices| ==> Halted(steps))
    decreases |devices|
  {
    if |devices| > 0 {
      var s := step(k, devices[0]);
      if !s.Halt? {
        var rest := Walk(devices[1..], k + 1, step);
        WalkSteps(devices[1..], k + 1, step);
        var steps := [s] + rest;
        assert Walk(devices, k, step) == steps;
        forall i | 0 < i < |steps|
          ensures steps[i] == step(k + i, devices[i])
        {
          assert steps[i] == rest[i - 1];
        }
      }
    }
  }

  /** Two loop bodies that agree on every step taken give the same walk. */
  lemma {:induction false} WalkAgree(devices: seq<string>, k: nat, step: (nat, string) -> Step, other: (nat, string) -> Step)
    requires forall i :: 0 <= i < |Walk(devices, k, step)| ==> other(k + i, devices[i]) == Walk(devices, k, step)[i]
    ensures Walk(devices, k, other) == Walk(devices, k, step)
    decreases |devices|
  {
    if |devices| > 0 {
      var steps := Walk(devices, k, step);
      assert other(k, devices[0]) == steps[0];
      if !steps[0].Halt? {
        var rest := Walk(devices[1..], k + 1, step);
        assert steps == [steps[0]] + rest;
        forall i | 0 <= i < |rest|
          ensures other(k + 1 + i, devices[1..][i]) == rest[i]
        {
          assert rest[i] == steps[i + 1];
          assert devices[1..][i] == devices[i + 1];
        }
        WalkAgree(devices[1..], k + 1, step, other);
      }
    }
  }

  /** `if foreground_app:` on line 133: a task is queued for a known, non-empty package. */
  predicate Queues(s: Step) {
    s.Inside? && s.app.Some? && s.app.value != ""
  }

  /** The tasks of lines 133-134, one per queueing step, in device order. */
  function Queued(devices: seq<string>, steps: seq<Step>): (tasks: seq<Task>)
    requires |steps| <= |devices|
    ensures |tasks| <= |steps|
    ensures forall t :: t in tasks ==> t.package != ""
    decreases |steps|
  {
    if |steps| == 0 then []
    else
      var first := if Queues(steps[0]) then [Task(devices[0], steps[0].app.value)] else [];
      first + Queued(devices[1..], steps[1..])
  }

  /** Line 88: the force-stop that one queued task performs, if any. */
  function BlockApp(t: Task): (stops: seq<Task>)
    ensures |stops| <= 1
    ensures stops == [t] <==> t.package in Blocklist
    ensures stops == [] <==> t.package !in Blocklist
  {
    if t.package in Blocklist then [t] else []
  }

  /** The force-stops the queued tasks perform when they all run. */
  function Stops(tasks: seq<Task>): (stops: seq<Task>)
    ensures |stops| <= |tasks|
    ensures forall t :: t in stops <==> t in tasks && t.package in Blocklist
  {
    if |tasks| == 0 then [] else BlockApp(tasks[0]) + Stops(tasks[1..])
  }

  /**
   * One run of `main`. With no devices it returns at once. Otherwise each
   * device is handled in turn and the queued tasks are run together at the
   * end; a halt ends the program before that, so no force-stop happens.
   */
  function RunCycle(listing: string, env: Env): (c: Outcome)
    ensures c.devices == ParseDevices(listing)
    ensures |c.devices| == 0 ==> c.steps == [] && c.tasks == [] && c.stops == []
    ensures |c.tasks| <= |c.steps| <= |c.devices|
    ensures Halted(c.steps) ==> c.stops == []
    ensures forall t :: t in c.stops ==> t in c.tasks && t.package in Blocklist
    ensures !Halted(c.steps) ==> forall t :: t in c.tasks && t.package in Blocklist ==> t in c.stops
  {
    var devices := ParseDevices(listing);
    if |devices| == 0 then Outcome([], [], [], [])
    else
      var steps := Walk(devices, 0, Stepper(env));
      var tasks := Queued(devices, steps);
      Outcome(devices, steps, tasks, if Halted(steps) then [] else Stops(tasks))
  }

  // ---------------------------------------------------------------------------
  // Properties
  // ---------------------------------------------------------------------------

  /** The queued tasks are exactly the (device, app) pairs of the queueing steps. */
  lemma {:induction false} QueuedMembers(devices: seq<string>, steps: seq<Step>, t: Task)
    requires |steps| <= |devices|
    ensures t in Queued(devices, steps) <==>
      exists i :: 0 <= i < |steps| && Queues(steps[i]) && t == Task(devices[i], steps[i].app.value)
    decreases |steps|
  {
    if |steps| > 0 {
      QueuedMembers(devices[1..], steps[1..], t);
      if t in Queued(devices[1..], steps[1..]) {
        var i :| 0 <= i < |steps| - 1 && Queues(steps[1..][i]) && t == Task(devices[1..][i], steps[1..][i].app.value);
        assert Queues(steps[i + 1]) && t == Task(devices[i + 1], steps[i + 1].app.value);
      }
      if exists i :: 0 <= i < |steps| && Queues(steps[i]) && t == Task(devices[i], steps[i].app.value) {
        var i :| 0 <= i < |steps| && Queues(steps[i]) && t == Task(devices[i], steps[i].app.value);
        if i > 0 {
          assert Queues(steps[1..][i - 1]) && t == Task(devices[1..][i - 1], steps[1..][i - 1].app.value);
        }
      }
    }
  }

  /** Tasks are queued in device order: the tasks of a longer run extend those of a shorter one. */
  lemma {:induction false} QueuedAppend(d1: seq<string>, s1: seq<Step>, d2: seq<string>, s2: seq<Step>)
    requires |s1| == |d1| && |s2| <= |d2|
    ensures Queued(d1 + d2, s1 + s2) == Queued(d1, s1) + Queued(d2, s2)
    decreases |s1|
  {
    if |s1| > 0 {
      QueuedAppend(d1[1..], s1[1..], d2, s2);
      assert (d1 + d2)[1..] == d1[1..] + d2;
      assert (s1 + s2)[1..] == s1[1..] + s2;
    } else {
      assert d1 + d2 == d2 && s1 + s2 == s2;
    }
  }

  /** The force-stops keep the order of the tasks they come from. */
  lemma {:induction false} StopsAppend(a: seq<Task>, b: seq<Task>)
    ensures Stops(a + b) == Stops(a) + Stops(b)
    decreases |a|
  {
    if |a| > 0 {
      StopsAppend(a[1..], b);
      assert (a + b)[1..] == a[1..] + b;
    } else {
      assert a + b == b;
    }
  }

  /** The foreground app is asked for only for a device located inside the geofence. */
  lemma ActivityOnlyInside(k: nat, serial: string, env: Env, activity: (nat, string) -> Option<string>)
    requires !DeviceStep(k, serial, env).Inside?
    ensures DeviceStep(k, serial, env.(activityDump := activity)) == DeviceStep(k, serial, env)
  {
  }

  /** When no device turns out to be inside the geofence, the foreground app is never asked for. */
  lemma NoneInsideNoActivity(listing: string, env: Env, activity: (nat, string) -> Option<string>)
    requires forall i :: 0 <= i < |RunCycle(listing, env).steps| ==> !RunCycle(listing, env).steps[i].Inside?
    ensures RunCycle(listing, env.(activityDump := activity)) == RunCycle(listing, env)
  {
    var devices := ParseDevices(listing);
    if |devices| > 0 {
      var env' := env.(activityDump := activity);
      var steps := Walk(devices, 0, Stepper(env));
      assert RunCycle(listing, env).steps == steps;
      WalkSteps(devices, 0, Stepper(env));
      forall i | 0 <= i < |steps|
        ensures Stepper(env')(i, devices[i]) == steps[i]
      {
        assert steps[i] == DeviceStep(i, devices[i], env) && !steps[i].Inside?;
        ActivityOnlyInside(i, devices[i], env, activity);
        assert Stepper(env')(i, devices[i]) == DeviceStep(i, devices[i], env');
      }
      WalkAgree(devices, 0, Stepper(env), Stepper(env'));
    }
  }

  /** With no device listed, the cycle makes no other call: its outcome depends on no oracle. */
  lemma NoDevicesNoCalls(listing: string, env: Env, other: Env)
    requires ParseDevices(listing) == []
    ensures RunCycle(listing, env) == RunCycle(listing, other) == Outcome([], [], [], [])
  {
  }

  /** A single listed device, located inside with `pkg` in front, gets one task. */
  lemma OneDeviceInside(listing: string, env: Env, serial: string, dump: string, lat: string, lon: string, pkg: string)
    requires ParseDevices(listing) == [serial]
    requires env.locationDump(0) == Some(dump) && ReadLocation(dump) == Coordinates(lat, lon)
    requires env.inside(lat, lon) == Some(true)
    requires AppFromDump(env.activityDump(0, serial)) == Some(pkg) && pkg != ""
    ensures RunCycle(listing, env).tasks == [Task(serial, pkg)]
    ensures RunCycle(listing, env).stops == (if pkg in Blocklist then [Task(serial, pkg)] else [])
  {
  }

  /** So a device inside the geofence running WhatsApp has it force-stopped. */
  lemma WhatsAppStopped(listing: string, env: Env, serial: string, dump: string, lat: string, lon: string)
    requires ParseDevices(listing) == [serial]
    requires env.locationDump(0) == Some(dump) && ReadLocation(dump) == Coordinates(lat, lon)
    requires env.inside(lat, lon) == Some(true)
    requires AppFromDump(env.activityDump(0, serial)) == Some("com.whatsapp")
    ensures RunCycle(listing, env).stops == [Task(serial, "com.whatsapp")]
  {
    OneDeviceInside(listing, env, serial, dump, lat, lon, "com.whatsapp");
  }
}
