/**
 * The mirror as a transition system: the broker registers and forwards requests, each disk serves its own backlog in
 * any order its scheduler allows, and one broker thread per disk handles that disk's replies in order.
 */
module Mirror {
  import opened Queues
  import opened RequestTables

  type Data = seq<int>

  /** `seqno` numbers requests in order of arrival; no component reads it. */
  datatype Message = Message(write: bool, id: nat, sector: nat, data: Data, client: nat, seqno: nat)

  /** Contents of a sector, and one more than the number of the write they came from (0: the initial contents). */
  datatype Stored = Stored(data: Data, version: nat)

  datatype Reply = Reply(message: Message, value: Stored)

  datatype DiskState = DiskState(
    store: map<nat, Stored>, backlog: seq<Message>, replies: seq<Reply>, info: DiskInfo)

  /** A request as it arrived, with the requests that had been answered by then. */
  datatype Arrival = Arrival(message: Message, answered: set<nat>)

  datatype Answer = Answer(seqno: nat, client: nat, value: Stored)

  /** Whether the broker's main thread is in the middle of forwarding a write: disks before `next` have it. */
  datatype Dispatch = Quiet | Forwarding(message: Message, next: nat)

  datatype State = State(
    initial: map<nat, Data>,
    disks: seq<DiskState>,
    pending: seq<Entry>,
    dispatch: Dispatch,
    arrivals: seq<Arrival>,
    answers: seq<Answer>)

  datatype Action =
    | ArriveWrite(id: nat, sector: nat, data: Data, client: nat)
    | ArriveRead(id: nat, sector: nat, client: nat)
    | Forward
    | Serve(disk: nat, position: nat)
    | HandleReply(disk: nat)

  // ---------- steps ----------

  /** A disk may serve a position no earlier write to the same sector stands in front of. */
  ghost predicate MayServe(backlog: seq<Message>, k: nat) {
    k < |backlog| && forall j :: 0 <= j < k ==> !(backlog[j].write && backlog[j].sector == backlog[k].sector)
  }

  function Answered(answers: seq<Answer>): set<nat> {
    set i | 0 <= i < |answers| :: answers[i].seqno
  }

  function InfosOf(disks: seq<DiskState>): seq<DiskInfo> {
    seq(|disks|, i requires 0 <= i < |disks| => disks[i].info)
  }

  function WithInfos(disks: seq<DiskState>, infos: seq<DiskInfo>): seq<DiskState>
    requires |disks| == |infos|
  {
    seq(|disks|, i requires 0 <= i < |disks| => disks[i].(info := infos[i]))
  }

  predicate FreshKey(s: State, id: nat, sector: nat) {
    FirstMatch(s.pending, id, sector) == |s.pending|
  }

  ghost predicate Enabled(s: State, a: Action) {
    match a
    case ArriveWrite(id, sector, _, _) => s.dispatch.Quiet? && FreshKey(s, id, sector) && sector in s.initial
    case ArriveRead(id, sector, _) => s.dispatch.Quiet? && FreshKey(s, id, sector) && sector in s.initial && s.disks != []
    case Forward => s.dispatch.Forwarding? && s.dispatch.next < |s.disks|
    case Serve(d, k) => d < |s.disks| && MayServe(s.disks[d].backlog, k) && s.disks[d].backlog[k].sector in s.disks[d].store
    case HandleReply(d) =>
      && d < |s.disks| && s.disks[d].replies != []
      && var m := s.disks[d].replies[0].message;
         var p := FirstMatch(s.pending, m.id, m.sector);
         p < |s.pending| && 0 < s.pending[p].count
  }

  function ServedDisk(d: DiskState, k: nat): DiskState
    requires k < |d.backlog| && d.backlog[k].sector in d.store
  {
    var m := d.backlog[k];
    var value := if m.write then Stored(m.data, m.seqno + 1) else d.store[m.sector];
    d.(store := if m.write then d.store[m.sector := value] else d.store,
       backlog := RemoveAt(d.backlog, k),
       replies := d.replies + [Reply(m, value)])
  }

  function Apply(s: State, a: Action): State
    requires Enabled(s, a)
  {
    match a
    case ArriveWrite(id, sector, data, client) =>
      var m := Message(true, id, sector, data, client, |s.arrivals|);
      s.(arrivals := s.arrivals + [Arrival(m, Answered(s.answers))],
         pending := s.pending + [Entry(id, sector, 0, client, |s.disks|, m.seqno)],
         dispatch := Forwarding(m, 0))
    case ArriveRead(id, sector, client) =>
      var m := Message(false, id, sector, [], client, |s.arrivals|);
      var d := SelectedDisk(InfosOf(s.disks));
      var disks := WithInfos(s.disks, AfterSelection(InfosOf(s.disks)));
      s.(arrivals := s.arrivals + [Arrival(m, Answered(s.answers))],
         pending := s.pending + [Entry(id, sector, d + 1, client, |s.disks|, m.seqno)],
         disks := disks[d := disks[d].(backlog := disks[d].backlog + [m])])
    case Forward =>
      var Forwarding(m, k) := s.dispatch;
      var d := s.disks[k];
      s.(disks := s.disks[k := d.(backlog := d.backlog + [m], info := d.info.(requested := true))],
         dispatch := if k + 1 == |s.disks| then Quiet else Forwarding(m, k + 1))
    case Serve(d, k) => s.(disks := s.disks[d := ServedDisk(s.disks[d], k)])
    case HandleReply(d) =>
      var Reply(m, value) := s.disks[d].replies[0];
      var p := FirstMatch(s.pending, m.id, m.sector);
      var rest := s.(disks := s.disks[d := s.disks[d].(replies := s.disks[d].replies[1..])]);
      var answer := [Answer(m.seqno, s.pending[p].client, value)];
      if m.write && 1 < s.pending[p].count then rest.(pending := Confirmed(s.pending, p))
      else rest.(pending := RemoveAt(s.pending, p), answers := s.answers + answer)
  }

  ghost predicate Init(s: State) {
    && s.disks != [] && s.pending == [] && s.dispatch == Quiet && s.arrivals == [] && s.answers == []
    && forall d :: 0 <= d < |s.disks| ==>
         && s.disks[d].backlog == [] && s.disks[d].replies == [] && s.disks[d].info.ready
         && s.disks[d].store == map x | x in s.initial :: Stored(s.initial[x], 0)
  }

  ghost predicate IsRun(run: seq<State>, acts: seq<Action>) {
    && |run| == |acts| + 1 && Init(run[0])
    && forall i :: 0 <= i < |acts| ==> Enabled(run[i], acts[i]) && run[i + 1] == Apply(run[i], acts[i])
  }

  // ---------- invariant ----------

  predicate Known(s: State, m: Message) {
    m.seqno < |s.arrivals| && s.arrivals[m.seqno].message == m
  }

  /** Messages in flight are the ones that arrived. */
  ghost predicate Genuine(s: State) {
    && (forall k :: 0 <= k < |s.arrivals| ==>
          && s.arrivals[k].message.seqno == k && s.arrivals[k].message.sector in s.initial
          && s.arrivals[k].answered <= Answered(s.answers))
    && (forall d, i :: 0 <= d < |s.disks| && 0 <= i < |s.disks[d].backlog| ==> Known(s, s.disks[d].backlog[i]))
    && (forall d, i :: 0 <= d < |s.disks| && 0 <= i < |s.disks[d].replies| ==> Known(s, s.disks[d].replies[i].message))
    && (s.dispatch.Forwarding? ==>
          && Known(s, s.dispatch.message) && s.dispatch.message.write
          && s.dispatch.message.seqno == |s.arrivals| - 1 && s.dispatch.next < |s.disks|)
    && s.disks != []
    && (forall d :: 0 <= d < |s.disks| ==> s.disks[d].store.Keys == s.initial.Keys)
  }

  ghost predicate InBacklog(d: DiskState, k: nat) {
    exists i :: 0 <= i < |d.backlog| && d.backlog[i].seqno == k
  }

  ghost predicate InReplies(d: DiskState, k: nat) {
    exists i :: 0 <= i < |d.replies| && d.replies[i].message.seqno == k
  }

  predicate Unsent(s: State, d: nat, k: nat) {
    s.dispatch.Forwarding? && s.dispatch.message.seqno == k && s.dispatch.next <= d
  }

  /** Each request is at one place of a disk at most, and backlogs are in arrival order. */
  ghost predicate Placed(s: State, d: nat)
    requires d < |s.disks|
  {
    var disk := s.disks[d];
    && (forall i, j :: 0 <= i < j < |disk.backlog| ==> disk.backlog[i].seqno < disk.backlog[j].seqno)
    && (forall i, j :: 0 <= i < j < |disk.replies| ==> disk.replies[i].message.seqno != disk.replies[j].message.seqno)
    && (forall i :: 0 <= i < |disk.replies| ==> !InBacklog(disk, disk.replies[i].message.seqno))
    && (forall k: nat :: Unsent(s, d, k) ==> !InBacklog(disk, k) && !InReplies(disk, k))
  }

  /** The value is the initial contents of the sector, or the data of the write it is numbered after. */
  predicate TrueValue(s: State, sector: nat, v: Stored)
    requires sector in s.initial
  {
    if v.version == 0 then v.data == s.initial[sector]
    else
      && v.version <= |s.arrivals|
      && var m := s.arrivals[v.version - 1].message;
         m.write && m.sector == sector && m.data == v.data
  }

  /** A disk's sector is at or past write `k` exactly when that write no longer waits for the disk. */
  ghost predicate AppliedExactly(s: State, d: nat, k: nat)
    requires d < |s.disks| && k < |s.arrivals| && Genuine(s)
  {
    var m := s.arrivals[k].message;
    m.write ==> (k < s.disks[d].store[m.sector].version <==> !Unsent(s, d, k) && !InBacklog(s.disks[d], k))
  }

  ghost predicate StoresTrue(s: State)
    requires Genuine(s)
  {
    && (forall d, x :: 0 <= d < |s.disks| && x in s.initial ==> TrueValue(s, x, s.disks[d].store[x]))
    && (forall d, k :: 0 <= d < |s.disks| && 0 <= k < |s.arrivals| ==> AppliedExactly(s, d, k))
  }

  /** Disk `d` still has to answer request `k`. */
  ghost predicate WaitingOn(s: State, d: nat, k: nat)
    requires d < |s.disks|
  {
    Unsent(s, d, k) || InBacklog(s.disks[d], k) || InReplies(s.disks[d], k)
  }

  ghost function WaitingDisks(s: State, k: nat): set<nat> {
    set d | 0 <= d < |s.disks| && WaitingOn(s, d, k)
  }

  ghost predicate Pending(s: State, k: nat) {
    exists i :: 0 <= i < |s.pending| && s.pending[i].seqno == k
  }

  /** An entry describes its request; a write's count is the number of disks yet to reply. */
  ghost predicate EntryTrue(s: State, e: Entry) {
    && e.seqno < |s.arrivals|
    && var m := s.arrivals[e.seqno].message;
       && e.id == m.id && e.sector == m.sector && e.client == m.client
       && |WaitingDisks(s, e.seqno)| == (if m.write then e.count else 1)
       && 0 < e.count
  }

  ghost predicate TableTrue(s: State) {
    && DistinctKeys(s.pending)
    && (forall i :: 0 <= i < |s.pending| ==> EntryTrue(s, s.pending[i]))
    && (forall k :: 0 <= k < |s.arrivals| && !Pending(s, k) ==> WaitingDisks(s, k) == {})
  }

  predicate WritesTo(s: State, w: nat, sector: nat)
    requires w < |s.arrivals|
  {
    s.arrivals[w].message.write && s.arrivals[w].message.sector == sector
  }

  /** A value read for request `k` is at least as new as every write answered before the request arrived. */
  ghost predicate Fresh(s: State, k: nat, v: Stored)
    requires k < |s.arrivals|
  {
    var read := s.arrivals[k].message;
    forall w :: 0 <= w < |s.arrivals| && w in s.arrivals[k].answered && WritesTo(s, w, read.sector) ==> w < v.version
  }

  ghost predicate GoodRead(s: State, k: nat, v: Stored)
    requires k < |s.arrivals| && Genuine(s)
  {
    !s.arrivals[k].message.write ==> TrueValue(s, s.arrivals[k].message.sector, v) && Fresh(s, k, v)
  }

  ghost predicate RepliesGood(s: State)
    requires Genuine(s)
  {
    forall d, i :: 0 <= d < |s.disks| && 0 <= i < |s.disks[d].replies| ==>
      GoodRead(s, s.disks[d].replies[i].message.seqno, s.disks[d].replies[i].value)
  }

  ghost predicate AnswersGood(s: State)
    requires Genuine(s)
  {
    && (forall i, j :: 0 <= i < j < |s.answers| ==> s.answers[i].seqno != s.answers[j].seqno)
    && (forall i :: 0 <= i < |s.answers| ==>
          && s.answers[i].seqno < |s.arrivals| && !Pending(s, s.answers[i].seqno)
          && s.answers[i].client == s.arrivals[s.answers[i].seqno].message.client
          && GoodRead(s, s.answers[i].seqno, s.answers[i].value))
    && (forall k :: 0 <= k < |s.arrivals| ==> Pending(s, k) || k in Answered(s.answers))
  }

  ghost predicate Inv(s: State) {
    && Genuine(s) && (forall d :: 0 <= d < |s.disks| ==> Placed(s, d))
    && StoresTrue(s) && TableTrue(s) && RepliesGood(s) && AnswersGood(s)
  }
}
