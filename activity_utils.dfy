/**
 * The foreground-activity registry of droiddriver's util package: one
 * process-wide slot holding the running (resumed) activity, written by the
 * test runner's lifecycle callbacks and read by the drivers.
 */
module Util {
  import opened Wrappers

  /** An android.app.Activity, identified by an opaque handle. */
  datatype Activity = Activity(handle: nat)

  /**
   * The static state of class ActivityUtils. The single static field becomes
   * the single field of one registry object; a null activity is `None`.
   */
  class ActivityUtils {
    var runningActivity: Option<Activity>

    /** The static field starts out null: no activity is running yet. */
    constructor ()
      ensures runningActivity == None
    {
      runningActivity := None;
    }

    /** Records `activity` (possibly null) as the running one; last writer wins. */
    method SetRunningActivity(activity: Option<Activity>)
      modifies this`runningActivity
      ensures runningActivity == activity
    {
      runningActivity := activity;
    }

    /** The running activity, or null when none has focus; the slot is only read. */
    method GetRunningActivity() returns (activity: Option<Activity>)
      ensures activity == runningActivity
    {
      activity := runningActivity;
    }
  }

  /** Reading the slot twice in a row gives the same activity both times. */
  method RepeatedGets(registry: ActivityUtils) returns (first: Option<Activity>, second: Option<Activity>)
    ensures first == second == registry.runningActivity
  {
    first := registry.GetRunningActivity();
    second := registry.GetRunningActivity();
  }

  /**
   * Two writes followed by a read: the read sees the second write, whatever
   * the first one was.
   */
  method LastWriterWins(registry: ActivityUtils, a: Option<Activity>, b: Option<Activity>)
      returns (seen: Option<Activity>)
    modifies registry
    ensures seen == b && registry.runningActivity == b
  {
    registry.SetRunningActivity(a);
    registry.SetRunningActivity(b);
    seen := registry.GetRunningActivity();
  }

  /**
   * Writing null clears the slot: a read after it reports that no activity is
   * running, whatever was running before.
   */
  method ClearingEmptiesRegistry(registry: ActivityUtils) returns (seen: Option<Activity>)
    modifies registry
    ensures seen == None && registry.runningActivity == None
  {
    registry.SetRunningActivity(None);
    seen := registry.GetRunningActivity();
  }

  /** A fresh registry reports that no activity is running. */
  method FreshRegistryIsEmpty() returns (seen: Option<Activity>)
    ensures seen == None
  {
    var registry := new ActivityUtils();
    seen := registry.GetRunningActivity();
  }
}
