/** The stamp by which a replaced bundle is noticed, taken before the bundle is read. */
module BundleStamp {
  import opened Basics

  /** How a bundle file is told from another without reading it: its size, and when it was written. */
  type Stamp = (nat, int)

  datatype Version = Version(text: string, stamp: Stamp)

  /** What is at the bundle's path from one replacement to the next; `None` is no file. */
  type History = seq<Option<Version>>

  function StampOf(v: Option<Version>): Option<Stamp> {
    if v.Some? then Some(v.value.stamp) else None
  }

  /** What reading gives. */
  function TextOf(v: Option<Version>): Option<string> {
    if v.Some? then Some(v.value.text) else None
  }

  /** What may come next: the file is replaced, or a refresh gets as far as its stamp, and then as its read. */
  datatype Event = Replaced | ConfigFailed | Stamped | BundleRead

  /** `used` is what the last refresh to read the bundle got; between its stamp and its read a refresh is `reading`. */
  datatype Watch = Watch(now: nat, stored: Option<Stamp>, used: Option<Option<string>>, reading: bool)

  const BEGUN: Watch := Watch(0, None, None, false)

  function Step(h: History, w: Watch, v: Event): Watch
    requires w.now < |h|
    ensures Step(h, w, v).now < |h|
  {
    match v
    case Replaced => if w.now + 1 < |h| then w.(now := w.now + 1) else w
    case ConfigFailed => w
    case Stamped => if w.reading then w else w.(stored := StampOf(h[w.now]), reading := true)
    case BundleRead => if w.reading then w.(used := Some(TextOf(h[w.now])), reading := false) else w
  }

  function Run(h: History, events: seq<Event>): (w: Watch)
    requires h != []
    ensures w.now < |h|
  {
    if events == [] then BEGUN else Step(h, Run(h, events[..|events| - 1]), events[|events| - 1])
  }

  /** A refresh has read the bundle, none is under way, and the loop sees no reason for another. */
  predicate Settled(h: History, w: Watch)
    requires w.now < |h|
  {
    w.used.Some? && !w.reading && w.stored == StampOf(h[w.now])
  }

  /** Then what was used is what is there. */
  ghost predicate NothingMissed(h: History)
    requires h != []
  {
    forall events :: var w := Run(h, events); Settled(h, w) ==> w.used == Some(TextOf(h[w.now]))
  }

  /** No stamp is seen again once other text has been there. */
  predicate NoReturn(h: History) {
    forall i, j, k | 0 <= i <= j <= k < |h| && StampOf(h[i]) == StampOf(h[k]) :: TextOf(h[j]) == TextOf(h[k])
  }

  /** The stamp is that of an earlier version, and the text that of one no earlier. */
  ghost predicate Ordered(h: History, w: Watch)
    requires w.now < |h|
  {
    && (w.reading ==> exists i :: 0 <= i <= w.now && w.stored == StampOf(h[i]))
    && (w.used.Some? && !w.reading ==>
          exists i, j :: 0 <= i <= j <= w.now && w.stored == StampOf(h[i]) && w.used == Some(TextOf(h[j])))
  }

  lemma {:induction false} RunsOrdered(h: History, events: seq<Event>)
    requires h != []
    ensures Ordered(h, Run(h, events))
  {
    if events != [] {
      var w, v := Run(h, events[..|events| - 1]), events[|events| - 1];
      RunsOrdered(h, events[..|events| - 1]);
      var after := Step(h, w, v);
      if v.Stamped? && !w.reading {
        assert after.stored == StampOf(h[w.now]);
      } else if v.BundleRead? && w.reading {
        var i :| 0 <= i <= w.now && w.stored == StampOf(h[i]);
        assert after.stored == StampOf(h[i]) && after.used == Some(TextOf(h[w.now]));
      } else if w.reading {
        var i :| 0 <= i <= w.now && w.stored == StampOf(h[i]);
        assert after.stored == StampOf(h[i]);
      } else if w.used.Some? {
        var i, j :| 0 <= i <= j <= w.now && w.stored == StampOf(h[i]) && w.used == Some(TextOf(h[j]));
        assert after.stored == StampOf(h[i]) && after.used == Some(TextOf(h[j]));
      }
    }
  }

  function Replacements(n: nat): seq<Event> {
    if n == 0 then [] else Replacements(n - 1) + [Replaced]
  }

  lemma {:induction false} RunReplaced(h: History, before: seq<Event>, n: nat)
    requires h != [] && Run(h, before).now + n < |h|
    ensures Run(h, before + Replacements(n)) == Run(h, before).(now := Run(h, before).now + n)
  {
    if n == 0 {
      assert before + [] == before;
    } else {
      var all := before + Replacements(n);
      assert all[..|all| - 1] == before + Replacements(n - 1) && all[|all| - 1] == Replaced;
      RunReplaced(h, before, n - 1);
    }
  }

  lemma RunOne(h: History, before: seq<Event>, v: Event)
    requires h != []
    ensures Run(h, before + [v]) == Step(h, Run(h, before), v)
  {
    assert (before + [v])[..|before|] == before;
  }

  /** A run that stamps one version, reads a later one and is settled at a later one still. */
  lemma {:induction false} Interleaving(h: History, i: nat, j: nat, k: nat) returns (events: seq<Event>)
    requires i <= j <= k < |h|
    ensures Run(h, events) == Watch(k, StampOf(h[i]), Some(TextOf(h[j])), false)
  {
    hide Run, Replacements;
    assert Run(h, []) == BEGUN by { RunNothing(h); }
    RunReplaced(h, [], i);
    var a := [] + Replacements(i);
    RunOne(h, a, Stamped);
    RunReplaced(h, a + [Stamped], j - i);
    var b := a + [Stamped] + Replacements(j - i);
    RunOne(h, b, BundleRead);
    RunReplaced(h, b + [BundleRead], k - j);
    events := b + [BundleRead] + Replacements(k - j);
  }

  lemma RunNothing(h: History)
    requires h != []
    ensures Run(h, []) == BEGUN
  {}

  /**
    However replacements fall among refreshes, a bundle whose stamp is the stored one is the bundle that was used,
    exactly when no stamp comes back after other text. That distinct texts have distinct stamps is not enough.
   */
  lemma {:induction false} NothingMissedExactly(h: History)
    requires h != []
    ensures NothingMissed(h) <==> NoReturn(h)
  {
    hide Run;
    if NoReturn(h) {
      forall events ensures var w := Run(h, events); Settled(h, w) ==> w.used == Some(TextOf(h[w.now])) {
        var w := Run(h, events);
        RunsOrdered(h, events);
        if Settled(h, w) {
          var i, j :| 0 <= i <= j <= w.now && w.stored == StampOf(h[i]) && w.used == Some(TextOf(h[j]));
          assert TextOf(h[j]) == TextOf(h[w.now]);
        }
      }
    }
    if NothingMissed(h) {
      forall i, j, k | 0 <= i <= j <= k < |h| && StampOf(h[i]) == StampOf(h[k]) ensures TextOf(h[j]) == TextOf(h[k]) {
        var events := Interleaving(h, i, j, k);
        assert Settled(h, Run(h, events));
      }
    }
  }

  /** Stamps tell texts apart. */
  predicate Telling(h: History) {
    forall i, k | 0 <= i < |h| && 0 <= k < |h| && StampOf(h[i]) == StampOf(h[k]) :: TextOf(h[i]) == TextOf(h[k])
  }

  /**
    A bundle replaced and put back while a refresh is between its stamp and its read: the other text is used for good.
   */
  lemma {:induction false} PutBackIsMissed()
    ensures exists h: History :: h != [] && Telling(h) && !NothingMissed(h)
  {
    var a, b := Version("a", (1, 0)), Version("b", (1, 1));
    var h: History := [Some(a), Some(b), Some(a)];
    assert StampOf(h[0]) == StampOf(h[2]) && TextOf(h[1]) != TextOf(h[2]) && 0 <= 0 <= 1 <= 2 < |h|;
    NothingMissedExactly(h);
    assert !NoReturn(h);
    assert Telling(h);
  }

  /** When every replacement bears a stamp not seen before, none is missed. */
  lemma FreshStampsMissNothing(h: History)
    requires h != [] && forall i, k | 0 <= i < k < |h| :: StampOf(h[i]) != StampOf(h[k])
    ensures NothingMissed(h)
  {
    NothingMissedExactly(h);
  }
}
