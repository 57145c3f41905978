/** The root events trustd records: the difference between two compositions, one event per root. */
module Audit {
  import opened Basics
  import opened Spelling
  import opened Store

  datatype Change = RootAdded | RootRemoved | RootDistrusted

  datatype Event = Event(change: Change, entry: Entry)

  function Fingerprints(roots: seq<Entry>): set<string> {
    set e | e in roots :: e.parsed.fingerprint
  }

  function Entered(before: set<string>, new_: seq<Entry>): seq<Event> {
    if new_ == [] then []
    else (if new_[0].parsed.fingerprint in before then [] else [Event(RootAdded, new_[0])]) + Entered(before, new_[1..])
  }

  function Departure(denied: set<string>, e: Entry): Event {
    Event(if e.parsed.fingerprint in denied then RootDistrusted else RootRemoved, e)
  }

  function Departed(after: set<string>, denied: set<string>, old_: seq<Entry>): seq<Event> {
    if old_ == [] then []
    else (if old_[0].parsed.fingerprint in after then [] else [Departure(denied, old_[0])])
         + Departed(after, denied, old_[1..])
  }

  function Denied(distrust: seq<string>): set<string> {
    set f | f in distrust :: NormaliseFingerprint(f)
  }

  /** Every root whose place in the set differs: additions first, then departures. */
  function Changes(old_: seq<Entry>, new_: seq<Entry>, distrust: seq<string>): seq<Event> {
    Entered(Fingerprints(old_), new_) + Departed(Fingerprints(new_), Denied(distrust), old_)
  }

  method RecordChanges(old_: seq<Entry>, new_: seq<Entry>, distrust: seq<string>) returns (out: seq<Event>)
    ensures out == Changes(old_, new_, distrust)
  {
    var before, after, denied := Fingerprints(old_), Fingerprints(new_), Denied(distrust);
    hide *;
    out := [];
    ChangesOf(old_, new_, distrust);
    for i := 0 to |new_|
      invariant Entered(before, new_) == out + Entered(before, new_[i..])
    {
      EnteredStep(before, new_[i..]);
      assert new_[i..][1..] == new_[i + 1..];
      if new_[i].parsed.fingerprint !in before {
        out := out + [Event(RootAdded, new_[i])];
      }
    }
    assert new_[|new_|..] == [];
    assert out + [] == out;
    ghost var entered := out;
    for i := 0 to |old_|
      invariant entered + Departed(after, denied, old_) == out + Departed(after, denied, old_[i..])
    {
      DepartedStep(after, denied, old_[i..]);
      assert old_[i..][1..] == old_[i + 1..];
      if old_[i].parsed.fingerprint !in after {
        out := out + [Departure(denied, old_[i])];
      }
    }
    assert old_[|old_|..] == [] && out + [] == out;
  }

  lemma ChangesOf(old_: seq<Entry>, new_: seq<Entry>, distrust: seq<string>)
    ensures Changes(old_, new_, distrust) ==
            Entered(Fingerprints(old_), new_) + Departed(Fingerprints(new_), Denied(distrust), old_)
    ensures Entered(Fingerprints(old_), []) == [] && Departed(Fingerprints(new_), Denied(distrust), []) == []
  {}

  lemma EnteredStep(before: set<string>, s: seq<Entry>)
    requires s != []
    ensures Entered(before, s) ==
            (if s[0].parsed.fingerprint in before then [] else [Event(RootAdded, s[0])]) + Entered(before, s[1..])
  {}

  lemma DepartedStep(after: set<string>, denied: set<string>, s: seq<Entry>)
    requires s != []
    ensures Departed(after, denied, s) ==
            (if s[0].parsed.fingerprint in after then [] else [Departure(denied, s[0])]) + Departed(after, denied,
                s[1..])
  {}

  // ---------------------------------------------------------------- what the events say

  lemma {:induction false} EnteredMembers(before: set<string>, s: seq<Entry>, v: Event)
    ensures v in Entered(before, s) <==>
              v.change == RootAdded && v.entry in s && v.entry.parsed.fingerprint !in before
  {
    if s != [] {
      assert s == [s[0]] + s[1..];
      EnteredMembers(before, s[1..], v);
    }
  }

  lemma {:induction false} DepartedMembers(after: set<string>, denied: set<string>, s: seq<Entry>, v: Event)
    ensures v in Departed(after, denied, s) <==>
              v == Departure(denied, v.entry) && v.entry in s && v.entry.parsed.fingerprint !in after
  {
    if s != [] {
      assert s == [s[0]] + s[1..];
      DepartedMembers(after, denied, s[1..], v);
    }
  }

  /** An event is recorded exactly for a root that entered or left, and a distrust exactly when one names it. */
  lemma ChangesAreExact(old_: seq<Entry>, new_: seq<Entry>, distrust: seq<string>, v: Event)
    ensures
      v in Changes(old_, new_, distrust) <==>
        var f := v.entry.parsed.fingerprint;
        match v.change
        case RootAdded => v.entry in new_ && f !in Fingerprints(old_)
        case RootRemoved => v.entry in old_ && f !in Fingerprints(new_) && f !in Denied(distrust)
        case RootDistrusted => v.entry in old_ && f !in Fingerprints(new_) && f in Denied(distrust)
  {
    EnteredMembers(Fingerprints(old_), new_, v);
    DepartedMembers(Fingerprints(new_), Denied(distrust), old_, v);
  }

  /** One event applied to the set of fingerprints a reader of the log believes in. */
  function Apply(known: set<string>, v: Event): set<string> {
    if v.change == RootAdded then known + {v.entry.parsed.fingerprint} else known - {v.entry.parsed.fingerprint}
  }

  /** A root can be added only if absent, and leave only if present. */
  predicate Applicable(known: set<string>, v: Event) {
    v.change == RootAdded <==> v.entry.parsed.fingerprint !in known
  }

  /** Replaying the events, or nothing if one of them does not apply. */
  function Replay(known: set<string>, events: seq<Event>): Option<set<string>>
    decreases |events|
  {
    if events == [] then Some(known)
    else if Applicable(known, events[0]) then Replay(Apply(known, events[0]), events[1..])
    else None
  }

  lemma ReplayFirst(known: set<string>, first: Event, rest: seq<Event>)
    ensures Replay(known, [first] + rest) == if Applicable(known, first) then Replay(Apply(known, first),
        rest) else None
  {
    assert ([first] + rest)[1..] == rest;
  }

  lemma {:induction false} ReplayAppend(known: set<string>, a: seq<Event>, b: seq<Event>)
    ensures Replay(known, a + b) ==
            match Replay(known, a) case None => None case Some(middle) => Replay(middle, b)
    decreases |a|
  {
    if a == [] {
      assert a + b == b;
    } else {
      assert (a + b)[1..] == a[1..] + b;
      if Applicable(known, a[0]) {
        ReplayAppend(Apply(known, a[0]), a[1..], b);
      }
    }
  }

  lemma IncreasingTail(roots: seq<Entry>)
    requires Increasing(roots) && roots != []
    ensures Increasing(roots[1..]) && roots[0].parsed.fingerprint !in Fingerprints(roots[1..])
    ensures Fingerprints(roots) == {roots[0].parsed.fingerprint} + Fingerprints(roots[1..])
  {
    assert forall i | 0 <= i < |roots| - 1 :: roots[1..][i] == roots[i + 1];
    assert roots == [roots[0]] + roots[1..];
  }

  lemma {:induction false} EnteredReplays(before: set<string>, known: set<string>, s: seq<Entry>)
    requires Increasing(s) && before <= known && Fingerprints(s) * known <= before
    ensures Replay(known, Entered(before, s)) == Some(known + Fingerprints(s))
    decreases |s|
  {
    if s == [] {
      assert Fingerprints(s) == {} && known + {} == known;
    } else {
      hide Increasing, Fingerprints, Replay;
      IncreasingTail(s);
      var f := s[0].parsed.fingerprint;
      var next := known + {f};
      EnteredReplays(before, next, s[1..]);
      assert next + Fingerprints(s[1..]) == known + Fingerprints(s);
      if f !in before {
        ReplayFirst(known, Event(RootAdded, s[0]), Entered(before, s[1..]));
      } else {
        assert next == known && [] + Entered(before, s[1..]) == Entered(before, s[1..]);
      }
    }
  }

  lemma {:induction false} DepartedReplays(after: set<string>, denied: set<string>, known: set<string>, s: seq<Entry>)
    requires Increasing(s) && Fingerprints(s) <= known
    ensures Replay(known, Departed(after, denied, s)) == Some(known - (Fingerprints(s) - after))
    decreases |s|
  {
    if s == [] {
      assert Fingerprints(s) == {} && known - ({} - after) == known;
    } else {
      hide Increasing, Fingerprints, Replay;
      IncreasingTail(s);
      var f := s[0].parsed.fingerprint;
      if f !in after {
        DepartedReplays(after, denied, known - {f}, s[1..]);
        ReplayFirst(known, Departure(denied, s[0]), Departed(after, denied, s[1..]));
        assert known - {f} - (Fingerprints(s[1..]) - after) == known - (Fingerprints(s) - after);
      } else {
        DepartedReplays(after, denied, known, s[1..]);
        assert [] + Departed(after, denied, s[1..]) == Departed(after, denied, s[1..]);
        assert Fingerprints(s[1..]) - after == Fingerprints(s) - after;
      }
    }
  }

  /** The events between two compositions, each applicable in turn, turn the old set into the new. */
  lemma {:induction false} ChangesReplay(old_: seq<Entry>, new_: seq<Entry>, distrust: seq<string>)
    requires Increasing(old_) && Increasing(new_)
    ensures Replay(Fingerprints(old_), Changes(old_, new_, distrust)) == Some(Fingerprints(new_))
  {
    hide Increasing, Fingerprints, Entered, Departed, Replay, Denied;
    var before, after := Fingerprints(old_), Fingerprints(new_);
    EnteredReplays(before, before, new_);
    DepartedReplays(after, Denied(distrust), before + after, old_);
    ReplayAppend(before, Entered(before, new_), Departed(after, Denied(distrust), old_));
    assert before + after - (before - after) == after;
  }
}
