/** What the calls on the slot table of src/darpa/model/MFTDMASlotGrid.cc do to a slot, from its
    proposal to its removal. */
module SlotLife {
  import opened SlotGrid

  // ---------- what is admitted ----------

  /** Without the option, as the header promises: receiving may be proposed on a free timeslot, and
      sending on one whose slots are free or proposed for sending to the same station. */
  lemma AdmittedOwnTimeslot(row: Row, f: nat, state: SlotState, mac: nat)
    requires f < |row|
    ensures ProposalAllowed(OWN_TIMESLOT, row, f, state, mac) <==>
      || (state == PROPOSED_RX && forall i :: 0 <= i < |row| ==> row[i].state == FREE)
      || (state == PROPOSED_TX && forall i :: 0 <= i < |row| ==>
            row[i].state == FREE || (row[i].state == PROPOSED_TX && row[i].targetMac == mac))
  {
  }

  /** With it, a free slot may be proposed for receiving if nothing in its timeslot receives, and for
      sending if nothing in its timeslot sends, but for proposals to the same station; neither goes
      with a reserved slot. */
  lemma AdmittedSameTimeslot(row: Row, f: nat, state: SlotState, mac: nat)
    requires f < |row|
    ensures ProposalAllowed(SAME_TIMESLOT, row, f, state, mac) <==>
      row[f].state == FREE && (
        || (state == PROPOSED_RX && forall i :: 0 <= i < |row| ==>
              row[i].state != RX && row[i].state != PROPOSED_RX && row[i].state != RESERVED)
        || (state == PROPOSED_TX && forall i :: 0 <= i < |row| ==>
              && row[i].state != TX && row[i].state != RESERVED
              && (row[i].state == PROPOSED_TX ==> row[i].targetMac == mac)))
  {
  }

  // ---------- one slot ----------

  /** Nothing but slot f of timeslot t differs. */
  ghost predicate OnlyAt(g: Grid, h: Grid, t: nat, f: nat) {
    && |h| == |g| && (forall i :: 0 <= i < |g| ==> |h[i]| == |g[i]|)
    && forall i, j {:trigger g[i][j]} :: 0 <= i < |g| && 0 <= j < |g[i]| && (i, j) != (t, f) ==> h[i][j] == g[i][j]
  }

  lemma PutOnly(g: Grid, t: nat, f: nat, s: SlotInfo)
    requires Inside(g, t, f)
    ensures OnlyAt(g, Put(g, t, f, s), t, f) && Put(g, t, f, s)[t][f] == s
  {
  }

  /** A proposal that is admitted fills its slot. */
  lemma Proposed(build: Build, g: Grid, t: nat, f: nat, state: SlotState, mac: nat)
    requires Inside(g, t, f)
    ensures var h := After(build, g, Propose(t, f, state, mac));
      if ProposalAllowed(build, g[t], f, state, mac)
      then OnlyAt(g, h, t, f) && h[t][f] == SlotInfo(mac, state, 0, 0)
      else h == g
  {
    PutOnly(g, t, f, SlotInfo(mac, state, 0, 0));
  }

  /** The station that a slot is proposed for takes it, for sending or for receiving as proposed. */
  lemma Taken(build: Build, g: Grid, t: nat, f: nat, state: SlotState, mac: nat, now: nat)
    requires Inside(g, t, f)
    ensures var h := After(build, g, Allocate(t, f, state, mac, now));
      if ((state == TX && g[t][f].state == PROPOSED_TX) || (state == RX && g[t][f].state == PROPOSED_RX))
         && g[t][f].targetMac == mac
      then OnlyAt(g, h, t, f) && h[t][f] == SlotInfo(mac, state, now, 0)
      else h == g
  {
    PutOnly(g, t, f, g[t][f].(state := state, lastUsed := now, pendingRemoval := 0));
  }

  lemma Marked(build: Build, g: Grid, t: nat, f: nat, id: nat)
    requires Inside(g, t, f)
    ensures var h := After(build, g, MarkRemoval(t, f, id));
      if (g[t][f].state == RX || g[t][f].state == TX) && g[t][f].pendingRemoval == 0
      then OnlyAt(g, h, t, f) && h[t][f] == g[t][f].(pendingRemoval := id)
      else h == g
  {
    PutOnly(g, t, f, g[t][f].(pendingRemoval := id));
  }

  lemma Renewed(build: Build, g: Grid, t: nat, f: nat, now: nat)
    requires Inside(g, t, f)
    ensures var h := After(build, g, UpdateUsage(t, f, now));
      if g[t][f].state == RX || g[t][f].state == TX
      then OnlyAt(g, h, t, f) && h[t][f] == g[t][f].(lastUsed := now)
      else h == g
  {
    PutOnly(g, t, f, g[t][f].(lastUsed := now));
  }

  /** Reserving and releasing take any slot as it is. */
  lemma ReservedOrReleased(build: Build, g: Grid, t: nat, f: nat)
    requires Inside(g, t, f)
    ensures var h, k := After(build, g, Reserve(t, f)), After(build, g, Release(t, f));
      && OnlyAt(g, h, t, f) && h[t][f] == SlotInfo(0, RESERVED, 0, 0)
      && OnlyAt(g, k, t, f) && k[t][f] == SlotInfo(0, FREE, 0, 0)
  {
    PutOnly(g, t, f, SlotInfo(0, RESERVED, 0, 0));
    PutOnly(g, t, f, EMPTY);
  }

  /** A call outside the table changes nothing. */
  lemma OutsideUnchanged(build: Build, g: Grid, c: Call)
    requires c.Propose? || c.Allocate? || c.Reserve? || c.MarkRemoval? || c.UpdateUsage? || c.Release?
    requires !Inside(g, c.t, c.f)
    ensures After(build, g, c) == g
  {
  }

  // ---------- the first slot of a kind ----------

  ghost predicate Before(i: nat, j: nat, t: nat, f: nat) {
    i < t || (i == t && j < f)
  }

  /** The slots on which the removal is pending. */
  ghost function Pending(g: Grid, id: nat): set<(nat, nat)> {
    set i, j | 0 <= i < |g| && 0 <= j < |g[i]| && g[i][j].pendingRemoval == id :: (i, j)
  }

  /** The slots proposed for receiving from the station. */
  ghost function Receivable(g: Grid, mac: nat): set<(nat, nat)> {
    set i, j | 0 <= i < |g| && 0 <= j < |g[i]| && g[i][j].state == PROPOSED_RX && g[i][j].targetMac == mac :: (i, j)
  }

  /** The first of them, by timeslot and then by frequency. */
  ghost predicate IsFirst(slots: set<(nat, nat)>, t: nat, f: nat) {
    (t, f) in slots && forall p :: p in slots ==> !Before(p.0, p.1, t, f)
  }

  /** The first of the slots, if there is one, is the only one to change, and becomes s. */
  ghost predicate FirstBecomes(g: Grid, h: Grid, slots: set<(nat, nat)>, freed: bool) {
    if slots == {} then h == g else
      exists t: nat, f: nat :: IsFirst(slots, t, f) && Inside(g, t, f) && OnlyAt(g, h, t, f)
        && h[t][f] == if freed then EMPTY else g[t][f].(pendingRemoval := 0)
  }

  lemma AtFirstBecomes(g: Grid, pick: Pick, fate: Fate, slots: set<(nat, nat)>)
    requires forall i: nat, j: nat :: (i, j) in slots <==> Inside(g, i, j) && Picked(pick, g[i][j])
    ensures FirstBecomes(g, AtFirst(g, pick, fate), slots, fate == Freed)
  {
    var t := FirstRow(g, pick, 0);
    forall p | p in slots ensures p.0 >= t {
      assert p == (p.0, p.1) && FirstInRow(g[p.0], pick, 0) < |g[p.0]|;
    }
    if t < |g| {
      var f := FirstInRow(g[t], pick, 0);
      PutOnly(g, t, f, Changed(g[t][f], fate));
      assert (t, f) in slots;
      assert IsFirst(slots, t, f);
    } else {
      assert forall p :: p in slots ==> p == (p.0, p.1);
      assert slots == {};
    }
  }

  lemma Aborted(build: Build, g: Grid, id: nat)
    ensures FirstBecomes(g, After(build, g, AbortRemoval(id)), Pending(g, id), false)
  {
    AtFirstBecomes(g, Removal(id), Unmarked, Pending(g, id));
  }

  lemma Executed(build: Build, g: Grid, id: nat)
    ensures FirstBecomes(g, After(build, g, ExecuteRemoval(id)), Pending(g, id), true)
  {
    AtFirstBecomes(g, Removal(id), Freed, Pending(g, id));
  }

  lemma ReceivingAborted(build: Build, g: Grid, mac: nat)
    ensures FirstBecomes(g, After(build, g, AbortReceiving(mac)), Receivable(g, mac), true)
  {
    AtFirstBecomes(g, ReceivingProposal(mac), Freed, Receivable(g, mac));
  }

  /** Every proposal to send to the station is freed, and nothing else changes. */
  lemma SendingAborted(build: Build, g: Grid, mac: nat, t: nat, f: nat)
    requires Inside(g, t, f)
    ensures var h := After(build, g, AbortSending(mac));
      && Inside(h, t, f)
      && h[t][f] == if g[t][f].state == PROPOSED_TX && g[t][f].targetMac == mac then EMPTY else g[t][f]
  {
  }

  // ---------- from the proposal to the removal ----------

  lemma SameElsewhere(g: Grid, h: Grid, t: nat, f: nat)
    requires OnlyAt(g, h, t, f) && Inside(g, t, f) && h[t][f] == g[t][f]
    ensures h == g
  {
    forall i | 0 <= i < |g| ensures h[i] == g[i] {
      assert forall j :: 0 <= j < |g[i]| ==> h[i][j] == g[i][j];
    }
  }

  lemma OnlyAtTwice(g: Grid, h: Grid, k: Grid, t: nat, f: nat)
    requires OnlyAt(g, h, t, f) && OnlyAt(h, k, t, f)
    ensures OnlyAt(g, k, t, f)
  {
    forall i, j | 0 <= i < |g| && 0 <= j < |g[i]| && (i, j) != (t, f) ensures k[i][j] == g[i][j] {
      assert h[i][j] == g[i][j];
    }
  }

  /** A free slot that is proposed, taken, marked and removed leaves the table as it was, if the
      removal has an id of its own. */
  lemma FullCircle(build: Build, g: Grid, t: nat, f: nat, sending: bool, mac: nat, now: nat, id: nat)
    requires Inside(g, t, f) && g[t][f] == EMPTY && id != 0
    requires ProposalAllowed(build, g[t], f, if sending then PROPOSED_TX else PROPOSED_RX, mac)
    requires forall i, j {:trigger g[i][j]} :: 0 <= i < |g| && 0 <= j < |g[i]| ==> g[i][j].pendingRemoval != id
    ensures
      var state := if sending then TX else RX;
      var g1 := After(build, g, Propose(t, f, if sending then PROPOSED_TX else PROPOSED_RX, mac));
      var g2 := After(build, g1, Allocate(t, f, state, mac, now));
      var g3 := After(build, g2, MarkRemoval(t, f, id));
      && Inside(g2, t, f) && g2[t][f] == SlotInfo(mac, state, now, 0)
      && Inside(g3, t, f) && g3[t][f] == SlotInfo(mac, state, now, id)
      && After(build, g3, ExecuteRemoval(id)) == g
  {
    var proposal, state := if sending then PROPOSED_TX else PROPOSED_RX, if sending then TX else RX;
    var g1 := After(build, g, Propose(t, f, proposal, mac));
    var g2 := After(build, g1, Allocate(t, f, state, mac, now));
    var g3 := After(build, g2, MarkRemoval(t, f, id));
    Proposed(build, g, t, f, proposal, mac);
    Taken(build, g1, t, f, state, mac, now);
    Marked(build, g2, t, f, id);
    OnlyAtTwice(g, g1, g2, t, f);
    OnlyAtTwice(g, g2, g3, t, f);
    RemovedAgain(build, g, g3, t, f, id);
  }

  lemma RemovedAgain(build: Build, g: Grid, h: Grid, t: nat, f: nat, id: nat)
    requires OnlyAt(g, h, t, f) && Inside(g, t, f) && g[t][f] == EMPTY && h[t][f].pendingRemoval == id
    requires forall i, j {:trigger g[i][j]} :: 0 <= i < |g| && 0 <= j < |g[i]| ==> g[i][j].pendingRemoval != id
    ensures After(build, h, ExecuteRemoval(id)) == g
  {
    var k := After(build, h, ExecuteRemoval(id));
    Executed(build, h, id);
    assert (t, f) in Pending(h, id);
    var i: nat, j: nat :| IsFirst(Pending(h, id), i, j) && OnlyAt(h, k, i, j) && Inside(h, i, j) && k[i][j] == EMPTY;
    assert g[i][j].pendingRemoval != id;
    assert (i, j) == (t, f);
    OnlyAtTwice(g, h, k, t, f);
    SameElsewhere(g, k, t, f);
  }

  // ---------- where allocations come from ----------

  ghost predicate WasProposed(calls: seq<Call>, t: nat, f: nat, state: SlotState, mac: nat) {
    exists i :: 0 <= i < |calls| && calls[i] == Propose(t, f, state, mac)
  }

  /** A proposal for the station, and later the station's allocation at the given time. */
  ghost predicate Agreed(calls: seq<Call>, t: nat, f: nat, state: SlotState, mac: nat) {
    exists i, now :: 0 <= i < |calls| && calls[i] == Allocate(t, f, state, mac, now)
      && WasProposed(calls[..i], t, f, if state == TX then PROPOSED_TX else PROPOSED_RX, mac)
  }

  /** The slot's state is one that the calls so far account for. */
  ghost predicate Accounted(calls: seq<Call>, t: nat, f: nat, s: SlotInfo) {
    match s.state
    case PROPOSED_TX => WasProposed(calls, t, f, PROPOSED_TX, s.targetMac)
    case PROPOSED_RX => WasProposed(calls, t, f, PROPOSED_RX, s.targetMac)
    case TX => Agreed(calls, t, f, TX, s.targetMac)
    case RX => Agreed(calls, t, f, RX, s.targetMac)
    case RESERVED => exists i :: 0 <= i < |calls| && calls[i] == Reserve(t, f)
    case FREE => true
  }

  lemma ProposedMore(calls: seq<Call>, c: Call, t: nat, f: nat, state: SlotState, mac: nat)
    ensures WasProposed(calls + [c], t, f, state, mac)
       <==> WasProposed(calls, t, f, state, mac) || c == Propose(t, f, state, mac)
  {
    if WasProposed(calls, t, f, state, mac) {
      var i :| 0 <= i < |calls| && calls[i] == Propose(t, f, state, mac);
      assert (calls + [c])[i] == calls[i];
    }
    assert (calls + [c])[|calls|] == c;
  }

  lemma AgreedMore(calls: seq<Call>, c: Call, t: nat, f: nat, state: SlotState, mac: nat)
    requires
      || Agreed(calls, t, f, state, mac)
      || (c.Allocate? && c == Allocate(t, f, state, mac, c.now)
          && WasProposed(calls, t, f, if state == TX then PROPOSED_TX else PROPOSED_RX, mac))
    ensures Agreed(calls + [c], t, f, state, mac)
  {
    var more := calls + [c];
    assert more[..|calls|] == calls && more[|calls|] == c;
    if Agreed(calls, t, f, state, mac) {
      var i, now :| 0 <= i < |calls| && calls[i] == Allocate(t, f, state, mac, now)
        && WasProposed(calls[..i], t, f, if state == TX then PROPOSED_TX else PROPOSED_RX, mac);
      assert more[..i] == calls[..i] && more[i] == calls[i];
    }
  }

  /** Calls that do not change the slot. */
  lemma StillAccounted(calls: seq<Call>, c: Call, t: nat, f: nat, s: SlotInfo)
    requires Accounted(calls, t, f, s)
    ensures Accounted(calls + [c], t, f, s)
  {
    match s.state
    case PROPOSED_TX => ProposedMore(calls, c, t, f, PROPOSED_TX, s.targetMac);
    case PROPOSED_RX => ProposedMore(calls, c, t, f, PROPOSED_RX, s.targetMac);
    case TX => AgreedMore(calls, c, t, f, TX, s.targetMac);
    case RX => AgreedMore(calls, c, t, f, RX, s.targetMac);
    case RESERVED =>
      var i :| 0 <= i < |calls| && calls[i] == Reserve(t, f);
      assert (calls + [c])[i] == calls[i];
    case FREE =>
  }

  /** What a call may make of a slot: it stays what it was, or becomes what the call asks for. */
  ghost predicate Follows(before: SlotInfo, c: Call, t: nat, f: nat, s: SlotInfo) {
    || s.state == FREE
    || (s.state == before.state && s.targetMac == before.targetMac)
    || (s.state == RESERVED && c == Reserve(t, f))
    || ((s.state == PROPOSED_TX || s.state == PROPOSED_RX) && c == Propose(t, f, s.state, s.targetMac))
    || (s.state == TX && before.state == PROPOSED_TX && before.targetMac == s.targetMac
        && c.Allocate? && c == Allocate(t, f, TX, s.targetMac, c.now))
    || (s.state == RX && before.state == PROPOSED_RX && before.targetMac == s.targetMac
        && c.Allocate? && c == Allocate(t, f, RX, s.targetMac, c.now))
  }

  lemma FirstFollows(build: Build, g: Grid, pick: Pick, fate: Fate, c: Call, t: nat, f: nat)
    requires Inside(g, t, f)
    ensures Inside(AtFirst(g, pick, fate), t, f) && Follows(g[t][f], c, t, f, AtFirst(g, pick, fate)[t][f])
  {
  }

  lemma CallFollows(build: Build, g: Grid, c: Call, t: nat, f: nat)
    requires Inside(g, t, f)
    ensures Inside(After(build, g, c), t, f) && Follows(g[t][f], c, t, f, After(build, g, c)[t][f])
  {
    match c
    case AbortRemoval(id) => FirstFollows(build, g, Removal(id), Unmarked, c, t, f);
    case ExecuteRemoval(id) => FirstFollows(build, g, Removal(id), Freed, c, t, f);
    case AbortReceiving(mac) => FirstFollows(build, g, ReceivingProposal(mac), Freed, c, t, f);
    case AbortSending(mac) => SendingAborted(build, g, mac, t, f);
    case _ =>
  }

  lemma FollowsAccounted(calls: seq<Call>, c: Call, t: nat, f: nat, before: SlotInfo, s: SlotInfo)
    requires Accounted(calls, t, f, before) && Follows(before, c, t, f, s)
    ensures Accounted(calls + [c], t, f, s)
  {
    if s.state == before.state && s.targetMac == before.targetMac {
      StillAccounted(calls, c, t, f, s);
    } else if s.state == TX || s.state == RX {
      AgreedMore(calls, c, t, f, s.state, s.targetMac);
    } else if s.state == RESERVED {
      assert (calls + [c])[|calls|] == c;
    } else if s.state != FREE {
      ProposedMore(calls, c, t, f, s.state, s.targetMac);
    }
  }

  lemma {:induction false} AfterAllMore(build: Build, g: Grid, calls: seq<Call>, c: Call)
    ensures AfterAll(build, g, calls + [c]) == After(build, AfterAll(build, g, calls), c)
    decreases |calls|
  {
    if calls == [] {
      assert [c][1..] == [] && calls + [c] == [c];
    } else {
      assert (calls + [c])[1..] == calls[1..] + [c];
      AfterAllMore(build, After(build, g, calls[0]), calls[1..], c);
    }
  }

  /** Whatever the calls, a slot in use for a station was first proposed for it and then allocated to
      it in the proposed direction, and a proposed or reserved one was asked for. */
  lemma {:induction false} SlotsAccounted(build: Build, timeslots: nat, frequencies: nat, calls: seq<Call>,
                                          t: nat, f: nat)
    requires t < timeslots && f < frequencies
    ensures var g := AfterAll(build, Unused(timeslots, frequencies), calls);
      Inside(g, t, f) && Accounted(calls, t, f, g[t][f])
    decreases |calls|
  {
    var start := Unused(timeslots, frequencies);
    if calls != [] {
      var n := |calls| - 1;
      assert calls == calls[..n] + [calls[n]];
      SlotsAccounted(build, timeslots, frequencies, calls[..n], t, f);
      AfterAllMore(build, start, calls[..n], calls[n]);
      var g := AfterAll(build, start, calls[..n]);
      CallFollows(build, g, calls[n], t, f);
      FollowsAccounted(calls[..n], calls[n], t, f, g[t][f], After(build, g, calls[n])[t][f]);
    }
  }
}
