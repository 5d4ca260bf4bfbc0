/** The slot allocation table of the MF-TDMA MAC, src/darpa/model/MFTDMASlotGrid.cc. */
module SlotGrid {

  datatype SlotState = FREE | RESERVED | RX | TX | PROPOSED_TX | PROPOSED_RX

  datatype SlotInfo = SlotInfo(targetMac: nat, state: SlotState, lastUsed: nat, pendingRemoval: nat)

  const EMPTY := SlotInfo(0, FREE, 0, 0)

  type Row = seq<SlotInfo>

  /** A timeslot is a row, a frequency slot a place in it. */
  type Grid = seq<Row>

  /** The build option under which one timeslot may both send and receive. */
  datatype Build = SAME_TIMESLOT | OWN_TIMESLOT

  ghost predicate Shape(g: Grid, timeslots: nat, frequencies: nat) {
    |g| == timeslots && forall t :: 0 <= t < timeslots ==> |g[t]| == frequencies
  }

  predicate Inside(g: Grid, t: nat, f: nat) {
    t < |g| && f < |g[t]|
  }

  function Put(g: Grid, t: nat, f: nat, info: SlotInfo): Grid
    requires Inside(g, t, f)
  {
    g[t := g[t][f := info]]
  }

  predicate Sends(s: SlotInfo) {
    s.state == TX || s.state == PROPOSED_TX
  }

  predicate Receives(s: SlotInfo) {
    s.state == RX || s.state == PROPOSED_RX
  }

  predicate Allocated(s: SlotInfo) {
    s.state == RX || s.state == TX
  }

  // ---------- what a timeslot admits ----------

  /** Whether a slot in the same timeslot leaves room for receiving. */
  predicate AdmitsReceiving(build: Build, s: SlotInfo) {
    match build
    case OWN_TIMESLOT => s.state == FREE
    case SAME_TIMESLOT => s.state != RX && s.state != PROPOSED_RX && s.state != RESERVED
  }

  /** Whether a slot in the same timeslot leaves room for sending to mac. */
  predicate AdmitsSending(build: Build, s: SlotInfo, mac: nat) {
    || s.state == FREE
    || (build == SAME_TIMESLOT && (s.state == RX || s.state == PROPOSED_RX))
    || (s.state == PROPOSED_TX && s.targetMac == mac)
  }

  /** isSetPendingAllowed.  Without the option a slot that is already proposed for sending to mac may
      be proposed again; with it the slot must be free. */
  predicate ProposalAllowed(build: Build, row: Row, f: nat, state: SlotState, mac: nat)
    requires f < |row|
  {
    match state
    case PROPOSED_RX => row[f].state == FREE && forall i :: 0 <= i < |row| ==> AdmitsReceiving(build, row[i])
    case PROPOSED_TX =>
      && (build == SAME_TIMESLOT ==> row[f].state == FREE)
      && forall i :: 0 <= i < |row| ==> AdmitsSending(build, row[i], mac)
    case _ => false
  }

  // ---------- the calls ----------

  datatype Call =
    | Propose(t: nat, f: nat, state: SlotState, mac: nat)
    | Allocate(t: nat, f: nat, state: SlotState, mac: nat, now: nat)
    | Reserve(t: nat, f: nat)
    | MarkRemoval(t: nat, f: nat, id: nat)
    | UpdateUsage(t: nat, f: nat, now: nat)
    | AbortRemoval(id: nat)
    | ExecuteRemoval(id: nat)
    | AbortReceiving(mac: nat)
    | AbortSending(mac: nat)
    | Release(t: nat, f: nat)

  /** The first slot, by timeslot and then by frequency, of a kind; 255 and 255 if there is none. */
  datatype Pick = Removal(id: nat) | ReceivingProposal(mac: nat)

  predicate Picked(pick: Pick, s: SlotInfo) {
    match pick
    case Removal(id) => s.pendingRemoval == id
    case ReceivingProposal(mac) => s.state == PROPOSED_RX && s.targetMac == mac
  }

  function FirstInRow(row: Row, pick: Pick, f: nat): (r: nat)
    requires f <= |row|
    ensures f <= r <= |row|
    ensures r < |row| ==> Picked(pick, row[r])
    ensures forall i :: f <= i < r ==> !Picked(pick, row[i])
    decreases |row| - f
  {
    if f == |row| || Picked(pick, row[f]) then f else FirstInRow(row, pick, f + 1)
  }

  /** The first timeslot from t on that has one. */
  function FirstRow(g: Grid, pick: Pick, t: nat): (r: nat)
    requires t <= |g|
    ensures t <= r <= |g|
    ensures r < |g| ==> FirstInRow(g[r], pick, 0) < |g[r]|
    ensures forall k :: t <= k < r ==> FirstInRow(g[k], pick, 0) == |g[k]|
    decreases |g| - t
  {
    if t == |g| || FirstInRow(g[t], pick, 0) < |g[t]| then t else FirstRow(g, pick, t + 1)
  }

  function Cleared(s: SlotInfo, mac: nat): SlotInfo {
    if s.state == PROPOSED_TX && s.targetMac == mac then EMPTY else s
  }

  function RowWithoutProposals(row: Row, mac: nat): (r: Row)
    ensures |r| == |row|
  {
    seq(|row|, i requires 0 <= i < |row| => Cleared(row[i], mac))
  }

  function WithoutProposals(g: Grid, mac: nat): (r: Grid)
    ensures |r| == |g|
  {
    seq(|g|, t requires 0 <= t < |g| => RowWithoutProposals(g[t], mac))
  }

  /** What becomes of the slot that is found. */
  datatype Fate = Unmarked | Freed

  function Changed(s: SlotInfo, fate: Fate): SlotInfo {
    if fate == Freed then EMPTY else s.(pendingRemoval := 0)
  }

  function AtFirst(g: Grid, pick: Pick, fate: Fate): Grid {
    var t := FirstRow(g, pick, 0);
    if t == |g| then g else
      var f := FirstInRow(g[t], pick, 0);
      Put(g, t, f, Changed(g[t][f], fate))
  }

  /** The grid after a call; a call outside the bounds, or one that is refused, changes nothing. */
  function After(build: Build, g: Grid, c: Call): Grid {
    match c
    case Propose(t, f, state, mac) =>
      if Inside(g, t, f) && ProposalAllowed(build, g[t], f, state, mac)
      then Put(g, t, f, SlotInfo(mac, state, 0, 0)) else g
    case Allocate(t, f, state, mac, now) =>
      if Inside(g, t, f) && AllocationAllowed(g[t][f], state, mac)
      then Put(g, t, f, g[t][f].(state := state, lastUsed := now, pendingRemoval := 0)) else g
    case Reserve(t, f) =>
      if Inside(g, t, f) then Put(g, t, f, SlotInfo(0, RESERVED, 0, 0)) else g
    case MarkRemoval(t, f, id) =>
      if Inside(g, t, f) && Allocated(g[t][f]) && g[t][f].pendingRemoval == 0
      then Put(g, t, f, g[t][f].(pendingRemoval := id)) else g
    case UpdateUsage(t, f, now) =>
      if Inside(g, t, f) && Allocated(g[t][f]) then Put(g, t, f, g[t][f].(lastUsed := now)) else g
    case AbortRemoval(id) => AtFirst(g, Removal(id), Unmarked)
    case ExecuteRemoval(id) => AtFirst(g, Removal(id), Freed)
    case AbortReceiving(mac) => AtFirst(g, ReceivingProposal(mac), Freed)
    case AbortSending(mac) => WithoutProposals(g, mac)
    case Release(t, f) => if Inside(g, t, f) then Put(g, t, f, EMPTY) else g
  }

  predicate AllocationAllowed(s: SlotInfo, state: SlotState, mac: nat) {
    ((state == TX && s.state == PROPOSED_TX) || (state == RX && s.state == PROPOSED_RX)) && s.targetMac == mac
  }

  // ---------- what every run of calls keeps ----------

  /** In one timeslot at most one slot receives, all slots that send have one target, and without the
      option nothing sends where something receives. */
  ghost predicate RowOk(build: Build, row: Row) {
    && (forall i, j :: 0 <= i < j < |row| && Receives(row[i]) ==> !Receives(row[j]))
    && (forall i, j :: 0 <= i < |row| && 0 <= j < |row| && Sends(row[i]) && Sends(row[j]) ==>
         row[i].targetMac == row[j].targetMac)
    && (build == OWN_TIMESLOT ==>
         forall i, j :: 0 <= i < |row| && 0 <= j < |row| && Sends(row[i]) ==> !Receives(row[j]))
    && (forall i :: 0 <= i < |row| && row[i].pendingRemoval != 0 ==> Allocated(row[i]))
  }

  ghost predicate GridOk(build: Build, g: Grid) {
    forall t :: 0 <= t < |g| ==> RowOk(build, g[t])
  }

  /** s may stand where before stood: it takes part in no more than before did. */
  ghost predicate Tamer(before: SlotInfo, s: SlotInfo) {
    && (Receives(s) ==> Receives(before))
    && (Sends(s) ==> Sends(before) && s.targetMac == before.targetMac)
    && (s.pendingRemoval != 0 ==> Allocated(s))
  }

  lemma TamerRow(build: Build, row: Row, others: Row)
    requires RowOk(build, row) && |others| == |row|
    requires forall i :: 0 <= i < |row| ==> Tamer(row[i], others[i])
    ensures RowOk(build, others)
  {
  }

  lemma TamerPut(build: Build, g: Grid, t: nat, f: nat, s: SlotInfo)
    requires GridOk(build, g) && Inside(g, t, f) && Tamer(g[t][f], s)
    ensures GridOk(build, Put(g, t, f, s))
  {
    forall i | 0 <= i < |g[t]| ensures Tamer(g[t][i], g[t][f := s][i]) {
      assert RowOk(build, g[t]);
    }
    TamerRow(build, g[t], g[t][f := s]);
  }

  lemma ProposalKeepsRow(build: Build, row: Row, f: nat, state: SlotState, mac: nat)
    requires RowOk(build, row) && f < |row| && ProposalAllowed(build, row, f, state, mac)
    ensures RowOk(build, row[f := SlotInfo(mac, state, 0, 0)])
  {
  }

  lemma ProposalKeeps(build: Build, g: Grid, t: nat, f: nat, state: SlotState, mac: nat)
    requires GridOk(build, g) && Inside(g, t, f) && ProposalAllowed(build, g[t], f, state, mac)
    ensures GridOk(build, Put(g, t, f, SlotInfo(mac, state, 0, 0)))
  {
    ProposalKeepsRow(build, g[t], f, state, mac);
  }

  lemma FirstKeeps(build: Build, g: Grid, pick: Pick, fate: Fate)
    requires GridOk(build, g)
    ensures GridOk(build, AtFirst(g, pick, fate))
  {
    var t := FirstRow(g, pick, 0);
    if t < |g| {
      var f := FirstInRow(g[t], pick, 0);
      assert RowOk(build, g[t]);
      TamerPut(build, g, t, f, Changed(g[t][f], fate));
    }
  }

  lemma ClearingKeeps(build: Build, g: Grid, mac: nat)
    requires GridOk(build, g)
    ensures GridOk(build, WithoutProposals(g, mac))
  {
    forall t | 0 <= t < |g| ensures RowOk(build, RowWithoutProposals(g[t], mac)) {
      TamerRow(build, g[t], RowWithoutProposals(g[t], mac));
    }
  }

  lemma CallKeeps(build: Build, g: Grid, c: Call)
    requires GridOk(build, g)
    ensures GridOk(build, After(build, g, c))
  {
    match c
    case Propose(t, f, state, mac) =>
      if Inside(g, t, f) && ProposalAllowed(build, g[t], f, state, mac) {
        ProposalKeeps(build, g, t, f, state, mac);
      }
    case Allocate(t, f, state, mac, now) =>
      if Inside(g, t, f) && AllocationAllowed(g[t][f], state, mac) {
        TamerPut(build, g, t, f, g[t][f].(state := state, lastUsed := now, pendingRemoval := 0));
      }
    case Reserve(t, f) =>
      if Inside(g, t, f) {
        TamerPut(build, g, t, f, SlotInfo(0, RESERVED, 0, 0));
      }
    case MarkRemoval(t, f, id) =>
      if Inside(g, t, f) && Allocated(g[t][f]) && g[t][f].pendingRemoval == 0 {
        TamerPut(build, g, t, f, g[t][f].(pendingRemoval := id));
      }
    case UpdateUsage(t, f, now) =>
      if Inside(g, t, f) && Allocated(g[t][f]) {
        TamerPut(build, g, t, f, g[t][f].(lastUsed := now));
      }
    case AbortRemoval(id) => FirstKeeps(build, g, Removal(id), Unmarked);
    case ExecuteRemoval(id) => FirstKeeps(build, g, Removal(id), Freed);
    case AbortReceiving(mac) => FirstKeeps(build, g, ReceivingProposal(mac), Freed);
    case AbortSending(mac) => ClearingKeeps(build, g, mac);
    case Release(t, f) =>
      if Inside(g, t, f) {
        TamerPut(build, g, t, f, EMPTY);
      }
  }

  lemma CallKeepsShape(build: Build, g: Grid, c: Call, timeslots: nat, frequencies: nat)
    requires Shape(g, timeslots, frequencies)
    ensures Shape(After(build, g, c), timeslots, frequencies)
  {
  }

  function Unused(timeslots: nat, frequencies: nat): (g: Grid)
    ensures Shape(g, timeslots, frequencies)
    ensures forall t, f :: 0 <= t < timeslots && 0 <= f < frequencies ==> g[t][f] == EMPTY
  {
    seq(timeslots, _ => seq(frequencies, _ => EMPTY))
  }

  function AfterAll(build: Build, g: Grid, calls: seq<Call>): Grid
    decreases |calls|
  {
    if calls == [] then g else AfterAll(build, After(build, g, calls[0]), calls[1..])
  }

  /** Over any sequence of calls no timeslot receives twice or sends to two targets, and removals are
      pending on allocated slots only. */
  lemma {:induction false} CallsKeep(build: Build, g: Grid, calls: seq<Call>, timeslots: nat, frequencies: nat)
    requires GridOk(build, g) && Shape(g, timeslots, frequencies)
    ensures GridOk(build, AfterAll(build, g, calls)) && Shape(AfterAll(build, g, calls), timeslots, frequencies)
    decreases |calls|
  {
    if calls != [] {
      CallKeeps(build, g, calls[0]);
      CallKeepsShape(build, g, calls[0], timeslots, frequencies);
      CallsKeep(build, After(build, g, calls[0]), calls[1..], timeslots, frequencies);
    }
  }

  // ---------- sending and receiving in one timeslot ----------

  ghost predicate Mixes(g: Grid) {
    exists t, i, j :: 0 <= t < |g| && 0 <= i < |g[t]| && 0 <= j < |g[t]| && Sends(g[t][i]) && Receives(g[t][j])
  }

  ghost predicate CanMix(build: Build, timeslots: nat, frequencies: nat) {
    exists calls :: Mixes(AfterAll(build, Unused(timeslots, frequencies), calls))
  }

  lemma TwoProposals(timeslots: nat, frequencies: nat)
    requires timeslots >= 1 && frequencies >= 2
    ensures CanMix(SAME_TIMESLOT, timeslots, frequencies)
  {
    var g := Unused(timeslots, frequencies);
    var a, b := Propose(0, 0, PROPOSED_RX, 1), Propose(0, 1, PROPOSED_TX, 2);
    var g1 := After(SAME_TIMESLOT, g, a);
    var g2 := After(SAME_TIMESLOT, g1, b);
    assert g1 == Put(g, 0, 0, SlotInfo(1, PROPOSED_RX, 0, 0));
    assert g2 == Put(g1, 0, 1, SlotInfo(2, PROPOSED_TX, 0, 0));
    assert Sends(g2[0][1]) && Receives(g2[0][0]);
    assert [a, b][1..] == [b] && [b][1..] == [];
    assert AfterAll(SAME_TIMESLOT, g2, []) == g2 && AfterAll(SAME_TIMESLOT, g1, [b]) == g2;
    assert Mixes(AfterAll(SAME_TIMESLOT, g, [a, b]));
  }

  /** A timeslot can come to send and receive exactly in the build with the option, on a grid with
      two frequencies or more. */
  lemma MixingIff(build: Build, timeslots: nat, frequencies: nat)
    ensures CanMix(build, timeslots, frequencies) <==> build == SAME_TIMESLOT && timeslots >= 1 && frequencies >= 2
  {
    if build == SAME_TIMESLOT && timeslots >= 1 && frequencies >= 2 {
      TwoProposals(timeslots, frequencies);
    } else {
      var g := Unused(timeslots, frequencies);
      forall calls ensures !Mixes(AfterAll(build, g, calls)) {
        CallsKeep(build, g, calls, timeslots, frequencies);
        NoMix(build, AfterAll(build, g, calls), timeslots, frequencies);
      }
    }
  }

  lemma NoMix(build: Build, g: Grid, timeslots: nat, frequencies: nat)
    requires GridOk(build, g) && Shape(g, timeslots, frequencies)
    requires build == OWN_TIMESLOT || timeslots == 0 || frequencies < 2
    ensures !Mixes(g)
  {
    forall t, i, j | 0 <= t < |g| && 0 <= i < |g[t]| && 0 <= j < |g[t]| && Sends(g[t][i])
      ensures !Receives(g[t][j])
    {
      assert RowOk(build, g[t]) && (frequencies < 2 ==> i == j);
    }
  }

  // ---------- removals ----------

  lemma PendingIsAllocated(build: Build, g: Grid, t: nat, f: nat)
    requires GridOk(build, g) && Inside(g, t, f) && g[t][f].pendingRemoval != 0
    ensures Allocated(g[t][f])
  {
    assert RowOk(build, g[t]);
  }

  /** The slot that a removal frees, if any, is an allocated one. */
  ghost predicate FreesAllocated(g: Grid, id: nat) {
    var t := FirstRow(g, Removal(id), 0);
    t < |g| ==> Allocated(g[t][FirstInRow(g[t], Removal(id), 0)])
  }

  lemma RemovalFreesAllocated(build: Build, g: Grid, id: nat)
    requires GridOk(build, g) && id != 0
    ensures FreesAllocated(g, id)
  {
    var t := FirstRow(g, Removal(id), 0);
    if t < |g| {
      PendingIsAllocated(build, g, t, FirstInRow(g[t], Removal(id), 0));
    }
  }

  /** With the id 0 it frees whatever slot has no removal pending: here a reserved one. */
  lemma RemovalOfZero(build: Build)
    ensures
      var g := [[SlotInfo(0, RESERVED, 0, 0)]];
      GridOk(build, g) && !FreesAllocated(g, 0) && After(build, g, ExecuteRemoval(0)) == [[EMPTY]]
  {
    var g := [[SlotInfo(0, RESERVED, 0, 0)]];
    assert FirstInRow(g[0], Removal(0), 0) == 0 && FirstRow(g, Removal(0), 0) == 0;
    assert g[0][0 := EMPTY] == [EMPTY];
    assert Put(g, 0, 0, EMPTY) == [[EMPTY]];
  }

  /** Removals with an id free allocated slots only, whatever the table holds, exactly if the id is
      not 0. */
  lemma RemovalSafeIff(build: Build, id: nat)
    ensures (forall g: Grid :: GridOk(build, g) ==> FreesAllocated(g, id)) <==> id != 0
  {
    if id == 0 {
      RemovalOfZero(build);
    } else {
      forall g: Grid | GridOk(build, g) ensures FreesAllocated(g, id) {
        RemovalFreesAllocated(build, g, id);
      }
    }
  }

  // ---------- the table as an object ----------

  lemma SameGrid(g: Grid, h: Grid, timeslots: nat, frequencies: nat)
    requires Shape(g, timeslots, frequencies) && Shape(h, timeslots, frequencies)
    requires forall t, f {:trigger g[t][f]} :: 0 <= t < timeslots && 0 <= f < frequencies ==> g[t][f] == h[t][f]
    ensures g == h
  {
    forall t | 0 <= t < timeslots ensures g[t] == h[t] {
      assert forall f :: 0 <= f < frequencies ==> g[t][f] == h[t][f];
    }
  }

  class MFTDMASlotGrid {
    const build: Build
    const slots: array2<SlotInfo>

    ghost function View(): (g: Grid)
      reads slots
      ensures Shape(g, slots.Length0, slots.Length1)
      ensures forall t, f {:trigger g[t][f]} ::
        0 <= t < slots.Length0 && 0 <= f < slots.Length1 ==> g[t][f] == slots[t, f]
    {
      seq(slots.Length0, t requires 0 <= t < slots.Length0 reads slots =>
        seq(slots.Length1, f requires 0 <= f < slots.Length1 reads slots => slots[t, f]))
    }

    /** Slot numbers are bytes, and 255 is never one of them. */
    ghost predicate Valid() {
      slots.Length0 <= 255 && slots.Length1 <= 255
    }

    constructor (timeslots: nat, frequencies: nat, build: Build)
      requires timeslots <= 255 && frequencies <= 255
      ensures Valid() && this.build == build && fresh(slots) && View() == Unused(timeslots, frequencies)
    {
      this.build := build;
      slots := new SlotInfo[timeslots, frequencies]((t, f) => EMPTY);
      new;
      SameGrid(View(), Unused(timeslots, frequencies), timeslots, frequencies);
    }

    predicate Bounded(t: nat, f: nat) {
      t < slots.Length0 && f < slots.Length1
    }

    method Write(t: nat, f: nat, info: SlotInfo)
      requires Bounded(t, f)
      modifies slots
      ensures View() == Put(old(View()), t, f, info)
    {
      slots[t, f] := info;
      SameGrid(View(), Put(old(View()), t, f, info), slots.Length0, slots.Length1);
    }

    method FreeSlot(t: nat, f: nat)
      modifies slots
      ensures View() == After(build, old(View()), Release(t, f))
    {
      if Bounded(t, f) {
        Write(t, f, EMPTY);
      }
    }

    method IsTimeslotAvailableRX(t: nat) returns (available: bool)
      ensures available <==>
        t < slots.Length0 && forall i :: 0 <= i < |View()[t]| ==> AdmitsReceiving(build, View()[t][i])
    {
      if t >= slots.Length0 {
        return false;
      }
      for f := 0 to slots.Length1
        invariant forall i :: 0 <= i < f ==> AdmitsReceiving(build, View()[t][i])
      {
        if !AdmitsReceiving(build, slots[t, f]) {
          assert !AdmitsReceiving(build, View()[t][f]);
          return false;
        }
      }
      return true;
    }

    method IsSetPendingAllowed(t: nat, f: nat, state: SlotState, mac: nat) returns (allowed: bool)
      ensures allowed <==> Bounded(t, f) && ProposalAllowed(build, View()[t], f, state, mac)
    {
      if !Bounded(t, f) {
        return false;
      }
      ghost var row := View()[t];
      assert row[f] == slots[t, f];
      if state == PROPOSED_RX {
        var available := IsTimeslotAvailableRX(t);
        return available && slots[t, f].state == FREE;
      } else if state == PROPOSED_TX {
        if build == SAME_TIMESLOT && slots[t, f].state != FREE {
          return false;
        }
        for i := 0 to slots.Length1
          invariant forall k :: 0 <= k < i ==> AdmitsSending(build, row[k], mac)
        {
          assert row[i] == slots[t, i];
          if !AdmitsSending(build, slots[t, i], mac) {
            return false;
          }
        }
        return true;
      }
      return false;
    }

    method SetSlotPending(t: nat, f: nat, state: SlotState, mac: nat) returns (done: bool)
      modifies slots
      ensures View() == After(build, old(View()), Propose(t, f, state, mac))
      ensures done <==> old(Bounded(t, f) && ProposalAllowed(build, View()[t], f, state, mac))
    {
      done := IsSetPendingAllowed(t, f, state, mac);
      if done {
        Write(t, f, SlotInfo(mac, state, 0, 0));
      }
    }

    /** now is the clock. */
    method SetSlotAllocated(t: nat, f: nat, state: SlotState, mac: nat, now: nat) returns (done: bool)
      modifies slots
      ensures View() == After(build, old(View()), Allocate(t, f, state, mac, now))
      ensures done <==> old(Bounded(t, f) && AllocationAllowed(View()[t][f], state, mac))
    {
      done := Bounded(t, f) && AllocationAllowed(slots[t, f], state, mac);
      if done {
        Write(t, f, slots[t, f].(state := state, lastUsed := now, pendingRemoval := 0));
      }
    }

    /** The slot is reserved in any case; the answer says whether its timeslot was free. */
    method SetSlotReserved(t: nat, f: nat) returns (allowed: bool)
      modifies slots
      ensures View() == After(build, old(View()), Reserve(t, f))
      ensures allowed <==> Bounded(t, f) && forall i :: 0 <= i < slots.Length1 ==> old(View()[t][i]).state == FREE
    {
      if !Bounded(t, f) {
        return false;
      }
      allowed := true;
      for i := 0 to slots.Length1
        invariant allowed <==> forall k :: 0 <= k < i ==> View()[t][k].state == FREE
      {
        assert View()[t][i] == slots[t, i];
        if slots[t, i].state != FREE {
          allowed := false;
        }
      }
      Write(t, f, SlotInfo(0, RESERVED, 0, 0));
    }

    method SetPendingRemoval(t: nat, f: nat, id: nat) returns (done: bool)
      modifies slots
      ensures View() == After(build, old(View()), MarkRemoval(t, f, id))
      ensures done <==> old(Bounded(t, f) && Allocated(View()[t][f]) && View()[t][f].pendingRemoval == 0)
    {
      done := Bounded(t, f) && Allocated(slots[t, f]) && slots[t, f].pendingRemoval == 0;
      if done {
        Write(t, f, slots[t, f].(pendingRemoval := id));
      }
    }

    method UpdateSlotUsage(t: nat, f: nat, now: nat) returns (updated: bool)
      modifies slots
      ensures View() == After(build, old(View()), UpdateUsage(t, f, now))
      ensures updated <==> old(Bounded(t, f) && Allocated(View()[t][f]))
    {
      updated := Bounded(t, f) && Allocated(slots[t, f]);
      if updated {
        Write(t, f, slots[t, f].(lastUsed := now));
      }
    }

    /** The search that three of the calls begin with. */
    method FindFirst(pick: Pick) returns (found: bool, t: nat, f: nat)
      ensures found <==> FirstRow(View(), pick, 0) < slots.Length0
      ensures found ==> t == FirstRow(View(), pick, 0) && f == FirstInRow(View()[t], pick, 0) && Bounded(t, f)
    {
      t := 0;
      while t < slots.Length0
        invariant t <= slots.Length0 && FirstRow(View(), pick, t) == FirstRow(View(), pick, 0)
      {
        f := 0;
        while f < slots.Length1
          invariant f <= slots.Length1 && FirstInRow(View()[t], pick, f) == FirstInRow(View()[t], pick, 0)
        {
          assert View()[t][f] == slots[t, f];
          if Picked(pick, slots[t, f]) {
            return true, t, f;
          }
          f := f + 1;
        }
        t := t + 1;
      }
      return false, 255, 255;
    }

    method AbortPendingRemoval(id: nat)
      modifies slots
      ensures View() == After(build, old(View()), AbortRemoval(id))
    {
      var found, t, f := FindFirst(Removal(id));
      if found {
        assert View()[t][f] == slots[t, f];
        Write(t, f, slots[t, f].(pendingRemoval := 0));
      }
    }

    /** The slot that was freed; 255 and 255, which no grid has, if there was none. */
    method ExecutePendingRemoval(id: nat) returns (t: nat, f: nat)
      requires Valid()
      modifies slots
      ensures View() == After(build, old(View()), ExecuteRemoval(id))
      ensures if Bounded(t, f) then old(View()[t][f]).pendingRemoval == id
              else t == f == 255 && View() == old(View())
    {
      var found;
      found, t, f := FindFirst(Removal(id));
      if found {
        Write(t, f, EMPTY);
      } else {
        t, f := 255, 255;
      }
    }

    method AbortRXProposal(mac: nat)
      modifies slots
      ensures View() == After(build, old(View()), AbortReceiving(mac))
    {
      var found, t, f := FindFirst(ReceivingProposal(mac));
      if found {
        Write(t, f, EMPTY);
      }
    }

    method AbortTXProposals(mac: nat)
      modifies slots
      ensures View() == After(build, old(View()), AbortSending(mac))
    {
      ghost var before := View();
      for t := 0 to slots.Length0
        invariant forall i, j :: 0 <= i < slots.Length0 && 0 <= j < slots.Length1 ==>
          slots[i, j] == if i < t then Cleared(before[i][j], mac) else before[i][j]
      {
        for f := 0 to slots.Length1
          invariant forall i, j :: 0 <= i < slots.Length0 && 0 <= j < slots.Length1 ==>
            slots[i, j] == if i < t || (i == t && j < f) then Cleared(before[i][j], mac) else before[i][j]
        {
          if slots[t, f].state == PROPOSED_TX && slots[t, f].targetMac == mac {
            slots[t, f] := EMPTY;
          }
        }
      }
      SameGrid(View(), WithoutProposals(before, mac), slots.Length0, slots.Length1);
    }
  }
}
