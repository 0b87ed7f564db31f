/** What one append does to the trail, as a function of what every system call answers, and what
    any run of appends and outside changes keeps. The classes in `AuditLog` refine it. */
module AuditTrail {
  import opened Wrappers
  import opened Utf8

  const NEWLINE: Byte := 0x0A

  type Path = string
  type Inode = nat

  /** The file system, the handle that is held, and the two things the sink remembers. */
  datatype State = State(
    names: map<Path, Inode>,
    data: map<Inode, Bytes>,
    path: Path,
    held: Inode,
    unterminated: bool,
    lastSize: Option<nat>)

  /** What opening the configured path answers. A failing open may have created the file first. */
  datatype Opening = Opens(readable: bool) | OpenFails(creates: bool)

  datatype Writing = WritesAll | WritesPart(n: nat)

  /** The answers of the system calls one append makes, in order. `created` is the inode number the
      kernel would give to a file created by it. */
  datatype Answers = Answers(
    statFails: bool,
    opening: Opening,
    created: Inode,
    sizeKnown: bool,
    writing: Writing,
    truncates: bool,
    sizeAfterKnown: bool)

  predicate Valid(s: State) {
    s.held in s.data && forall p :: p in s.names ==> s.names[p] in s.data
  }

  predicate EndsMidLine(b: Bytes) {
    b != [] && b[|b| - 1] != NEWLINE
  }

  // ---------------------------------------------------------------------------
  // One append
  // ---------------------------------------------------------------------------

  predicate Attached(s: State) {
    s.path in s.names && s.names[s.path] == s.held
  }

  /** The file the path names, created empty when there is none. */
  function Created(s: State, newInode: Inode): State {
    if s.path in s.names then s else s.(names := s.names[s.path := newInode], data := s.data[newInode := []])
  }

  /** The handle is replaced, and what was remembered about the old file is forgotten. */
  function Reopened(s: State, readable: bool, newInode: Inode): State
    requires Valid(s)
  {
    var c := Created(s, newInode);
    var held := c.names[c.path];
    c.(held := held, unterminated := readable && EndsMidLine(c.data[held]), lastSize := None)
  }

  predicate MustReopen(s: State, a: Answers) {
    !a.statFails && !Attached(s)
  }

  function Reattached(s: State, a: Answers): State
    requires Valid(s)
  {
    if !MustReopen(s, a) then s
    else match a.opening
         case Opens(readable) => Reopened(s, readable, a.created)
         case OpenFails(creates) => if creates then Created(s, a.created) else s
  }

  function Buffer(s: State, line: Bytes): Bytes {
    (if s.unterminated then [NEWLINE] else []) + line + [NEWLINE]
  }

  /** What of the buffer reaches the file: a failed write leaves a proper part of it. */
  function Reaching(buf: Bytes, writing: Writing): Bytes
    requires buf != []
  {
    match writing
    case WritesAll => buf
    case WritesPart(n) => buf[..if n < |buf| then n else |buf| - 1]
  }

  function Resized(b: Bytes, len: nat): Bytes {
    if len <= |b| then b[..len] else b + seq(len - |b|, _ => 0)
  }

  predicate RollsBack(a: Answers) {
    a.writing.WritesPart? && a.sizeKnown && a.truncates
  }

  /** The part of an append that follows the reattachment. With `repaired` the flag is only ever
      cleared by a write that succeeded. */
  function Written(s: State, line: Bytes, a: Answers, repaired: bool): State
    requires Valid(s)
  {
    var before := s.data[s.held];
    var partial := before + Reaching(Buffer(s, line), a.writing);
    var after := if RollsBack(a) then Resized(partial, |before|) else partial;
    s.(data := s.data[s.held := after],
       unterminated := a.writing.WritesPart? && ((repaired && s.unterminated) || !RollsBack(a)),
       lastSize := if a.sizeAfterKnown then Some(|after|) else None)
  }

  function Appended(s: State, line: Bytes, a: Answers, repaired: bool): State
    requires Valid(s)
  {
    ReattachedValid(s, a);
    Written(Reattached(s, a), line, a, repaired)
  }

  /** The append warns that bytes were removed from under it. */
  predicate Warns(s: State, a: Answers)
    requires Valid(s)
  {
    ReattachedValid(s, a);
    var r := Reattached(s, a);
    a.sizeKnown && r.lastSize.Some? && |r.data[r.held]| < r.lastSize.value
  }

  lemma ReattachedValid(s: State, a: Answers)
    requires Valid(s)
    ensures Valid(Reattached(s, a))
  {
  }

  // ---------------------------------------------------------------------------
  // Runs, and the ledger of records whose write succeeded
  // ---------------------------------------------------------------------------

  datatype Event =
    | Append(line: Bytes, answers: Answers)
    | Rename(from: Path, to: Path)
    | Unlink(name: Path)
    | Replace(name: Path, inode: Inode, content: Bytes)
    | Truncate(inode: Inode, len: nat)

  /** A record that was written whole: in which file, from which offset on. */
  datatype Entry = Entry(inode: Inode, offset: nat, line: Bytes) {
    function End(): nat {
      offset + |line| + 1
    }
  }

  datatype World = World(state: State, landed: seq<Entry>)

  /** The entries that outside truncation of `inode` to `len` bytes leaves. */
  function Surviving(landed: seq<Entry>, inode: Inode, len: nat): seq<Entry> {
    if landed == [] then []
    else
      var rest := Surviving(landed[1..], inode, len);
      if landed[0].inode == inode && landed[0].End() > len then rest else [landed[0]] + rest
  }

  function Step(w: World, e: Event, repaired: bool): World
    requires Valid(w.state)
  {
    var s := w.state;
    match e
    case Append(line, a) =>
      var t := Appended(s, line, a, repaired);
      World(t, if a.writing.WritesAll? then w.landed + [Landing(s, line, a)] else w.landed)
    case Rename(from, to) =>
      if from !in s.names then w else World(s.(names := (s.names - {from})[to := s.names[from]]), w.landed)
    case Unlink(name) =>
      World(s.(names := s.names - {name}), w.landed)
    case Replace(name, inode, content) =>
      World(s.(names := s.names[name := inode], data := s.data[inode := content]), w.landed)
    case Truncate(inode, len) =>
      if inode !in s.data || len > |s.data[inode]| then w
      else World(s.(data := s.data[inode := s.data[inode][..len]]), Surviving(w.landed, inode, len))
  }

  /** Where a record lands: in the file held after the reattachment, behind what is there and the
      newline that closes a broken line. */
  function Landing(s: State, line: Bytes, a: Answers): Entry
    requires Valid(s)
  {
    ReattachedValid(s, a);
    var r := Reattached(s, a);
    Entry(r.held, |r.data[r.held]| + (if r.unterminated then 1 else 0), line)
  }

  /** A failed append of a record begun with the flag set takes the file back to a length at which
      it still ends mid-line. */
  predicate ClearsWrongly(s: State, a: Answers)
    requires Valid(s)
  {
    ReattachedValid(s, a);
    var r := Reattached(s, a);
    RollsBack(a) && r.unterminated && EndsMidLine(r.data[r.held])
  }

  /** The append reopens a file that ends mid-line and that it cannot read: it takes the line for
      finished. */
  predicate ReopensBlindly(s: State, a: Answers)
    requires Valid(s)
  {
    MustReopen(s, a) && a.opening.Opens? && !a.opening.readable &&
    s.path in s.names && EndsMidLine(s.data[s.names[s.path]])
  }

  /** New files get new inode numbers. */
  predicate Fresh(s: State, e: Event) {
    match e
    case Append(_, a) => a.created !in s.data
    case Replace(_, inode, _) => inode !in s.data
    case _ => true
  }

  /** What records need of their environment: an encoded record holds no newline, a broken line is never
      reopened blindly, and the held file, while its last line counts as finished, is cut at line ends
      only. */
  predicate Fair(s: State, e: Event)
    requires Valid(s)
  {
    Fresh(s, e) &&
    match e
    case Append(line, a) => NEWLINE !in line && !ReopensBlindly(s, a)
    case Truncate(inode, len) =>
      inode == s.held && !s.unterminated && len <= |s.data[inode]| ==> !EndsMidLine(s.data[inode][..len])
    case _ => true
  }

  /** The premise under which the code as it stands keeps its promise; the repaired code needs none of it. */
  predicate Safe(s: State, e: Event, repaired: bool)
    requires Valid(s)
  {
    repaired || (e.Append? ==> !ClearsWrongly(s, e.answers))
  }

  lemma StepValid(w: World, e: Event, repaired: bool)
    requires Valid(w.state)
    ensures Valid(Step(w, e, repaired).state)
  {
    if e.Append? {
      ReattachedValid(w.state, e.answers);
    }
  }

  function Run(w: World, events: seq<Event>, repaired: bool): (r: World)
    requires Valid(w.state)
    ensures Valid(r.state)
    decreases |events|
  {
    if events == [] then w
    else
      StepValid(w, events[0], repaired);
      Run(Step(w, events[0], repaired), events[1..], repaired)
  }

  /** Every event of the run is fair in the state it meets. */
  predicate FairRun(w: World, events: seq<Event>, repaired: bool)
    requires Valid(w.state)
    decreases |events|
  {
    events == [] ||
    (StepValid(w, events[0], repaired);
     Fair(w.state, events[0]) && FairRun(Step(w, events[0], repaired), events[1..], repaired))
  }

  predicate FreshRun(w: World, events: seq<Event>, repaired: bool)
    requires Valid(w.state)
    decreases |events|
  {
    events == [] ||
    (StepValid(w, events[0], repaired);
     Fresh(w.state, events[0]) && FreshRun(Step(w, events[0], repaired), events[1..], repaired))
  }

  /** And no append of the run clears the flag wrongly. */
  predicate SafeRun(w: World, events: seq<Event>, repaired: bool)
    requires Valid(w.state)
    decreases |events|
  {
    events == [] ||
    (StepValid(w, events[0], repaired);
     Safe(w.state, events[0], repaired) && SafeRun(Step(w, events[0], repaired), events[1..], repaired))
  }

  // ---------------------------------------------------------------------------
  // What every run keeps
  // ---------------------------------------------------------------------------

  /** A clear flag means the held file is empty or ends with a newline. */
  predicate FlagSound(s: State)
    requires Valid(s)
  {
    s.unterminated || !EndsMidLine(s.data[s.held])
  }

  /** `line` is the whole of one line of `b`, the one that starts at `offset`. */
  predicate IsWholeLine(b: Bytes, offset: nat, line: Bytes) {
    NEWLINE !in line && offset + |line| + 1 <= |b| &&
    (offset == 0 || b[offset - 1] == NEWLINE) &&
    b[offset..offset + |line|] == line && b[offset + |line|] == NEWLINE
  }

  /** Records in one file follow each other in call order, without overlap. */
  predicate InOrder(landed: seq<Entry>) {
    forall i, j :: 0 <= i < j < |landed| && landed[i].inode == landed[j].inode ==>
      landed[i].End() <= landed[j].offset
  }

  predicate AllWhole(s: State, landed: seq<Entry>) {
    forall i :: 0 <= i < |landed| ==>
      landed[i].inode in s.data && IsWholeLine(s.data[landed[i].inode], landed[i].offset, landed[i].line)
  }

  predicate Kept(w: World) {
    Valid(w.state) && FlagSound(w.state) && AllWhole(w.state, w.landed) && InOrder(w.landed)
  }

  lemma WholeLineInLonger(b: Bytes, c: Bytes, offset: nat, line: Bytes)
    requires IsWholeLine(b, offset, line)
    requires |b| <= |c| && c[..|b|] == b
    ensures IsWholeLine(c, offset, line)
  {
    assert forall i :: 0 <= i < |b| ==> c[i] == c[..|b|][i];
  }

  /** Whatever an append answers, no byte that was in a file before it changes, and at most the
      held file grows. */
  lemma AppendOnlyAdds(s: State, line: Bytes, a: Answers, repaired: bool, inode: Inode)
    requires Valid(s) && a.created !in s.data && inode in s.data
    ensures var t := Appended(s, line, a, repaired);
            inode in t.data && |s.data[inode]| <= |t.data[inode]| &&
            t.data[inode][..|s.data[inode]|] == s.data[inode] &&
            (inode != t.held ==> t.data[inode] == s.data[inode])
  {
    ReattachedValid(s, a);
    var r := Reattached(s, a);
    assert r.data[inode] == s.data[inode];
    var before := r.data[r.held];
    var partial := before + Reaching(Buffer(r, line), a.writing);
    assert partial[..|before|] == before;
  }

  /** A reattachment keeps the flag sound exactly when it does not reopen a broken line blindly. */
  lemma FlagAfterReattach(s: State, a: Answers)
    requires Valid(s) && FlagSound(s) && a.created !in s.data
    ensures Valid(Reattached(s, a))
    ensures FlagSound(Reattached(s, a)) <==> !ReopensBlindly(s, a)
  {
    ReattachedValid(s, a);
  }

  /** After an append, whatever came before it, the flag is sound exactly when the append is not a rollback
      in a file that ends mid-line. */
  lemma FlagAfterAppend(s: State, line: Bytes, a: Answers)
    requires Valid(s)
    ensures Valid(Reattached(s, a)) && Valid(Appended(s, line, a, false))
    ensures var r := Reattached(s, a);
            FlagSound(Appended(s, line, a, false)) <==> !(RollsBack(a) && EndsMidLine(r.data[r.held]))
  {
    ReattachedValid(s, a);
    FlagAfterWrite(Reattached(s, a), line, a, false);
  }

  /** What the write and the rollback behind a reattachment make of the flag. */
  lemma FlagAfterWrite(r: State, line: Bytes, a: Answers, repaired: bool)
    requires Valid(r)
    ensures FlagSound(Written(r, line, a, repaired)) <==>
            !(RollsBack(a) && EndsMidLine(r.data[r.held]) && !(repaired && r.unterminated))
  {
    var before := r.data[r.held];
    var partial := before + Reaching(Buffer(r, line), a.writing);
    assert partial[..|before|] == before;
    assert Buffer(r, line)[|Buffer(r, line)| - 1] == NEWLINE;
  }

  /** The promise about the flag survives an append exactly when the append does not clear it wrongly and
      is not rolled back behind a blind reopening. */
  lemma FlagStaysSoundExactly(s: State, line: Bytes, a: Answers)
    requires Valid(s) && FlagSound(s) && a.created !in s.data
    ensures Valid(Appended(s, line, a, false))
    ensures FlagSound(Appended(s, line, a, false)) <==>
            !ClearsWrongly(s, a) && !(RollsBack(a) && ReopensBlindly(s, a))
  {
    FlagAfterReattach(s, a);
    FlagAfterAppend(s, line, a);
  }

  /** With the flag cleared by successful writes only, what is left is the rollback behind a blind
      reopening. */
  lemma RepairedFlagStaysSound(s: State, line: Bytes, a: Answers)
    requires Valid(s) && FlagSound(s) && a.created !in s.data
    ensures Valid(Appended(s, line, a, true))
    ensures FlagSound(Appended(s, line, a, true)) <==> !(RollsBack(a) && ReopensBlindly(s, a))
  {
    FlagAfterReattach(s, a);
    FlagAfterWrite(Reattached(s, a), line, a, true);
  }

  /** A record that is written is one whole line at the end of the held file exactly when the flag was
      sound after the reattachment. */
  lemma NewRecordIsWhole(s: State, line: Bytes, a: Answers, repaired: bool)
    requires Valid(s) && NEWLINE !in line && a.writing.WritesAll?
    ensures Valid(Reattached(s, a))
    ensures var e := Landing(s, line, a);
            var t := Appended(s, line, a, repaired);
            e.inode == t.held && e.inode in t.data && e.End() == |t.data[e.inode]| &&
            (IsWholeLine(t.data[e.inode], e.offset, line) <==> FlagSound(Reattached(s, a)))
  {
    ReattachedValid(s, a);
    var r := Reattached(s, a);
    var closed := r.data[r.held] + if r.unterminated then [NEWLINE] else [];
    assert r.data[r.held] + Buffer(r, line) == closed + line + [NEWLINE];
    if EndsMidLine(closed) {
      assert (closed + line + [NEWLINE])[|closed| - 1] == closed[|closed| - 1];
    } else {
      BehindALineEnd(closed, line);
    }
  }

  /** What follows a line end up to the next newline is a whole line. */
  lemma BehindALineEnd(closed: Bytes, line: Bytes)
    requires !EndsMidLine(closed) && NEWLINE !in line
    ensures IsWholeLine(closed + line + [NEWLINE], |closed|, line)
  {
    var after := closed + line + [NEWLINE];
    assert closed != [] ==> after[|closed| - 1] == closed[|closed| - 1];
    assert after[|closed|..|closed| + |line|] == line;
  }

  lemma {:induction false} SurvivingIsSub(landed: seq<Entry>, inode: Inode, len: nat)
    ensures var kept := Surviving(landed, inode, len);
            forall e :: e in kept <==> e in landed && !(e.inode == inode && e.End() > len)
  {
    if landed != [] {
      SurvivingIsSub(landed[1..], inode, len);
      assert landed == [landed[0]] + landed[1..];
    }
  }

  lemma InOrderCons(first: Entry, rest: seq<Entry>)
    ensures InOrder([first] + rest) <==>
            InOrder(rest) && forall e :: e in rest && e.inode == first.inode ==> first.End() <= e.offset
  {
    var all := [first] + rest;
    assert forall i :: 0 <= i < |rest| ==> all[i + 1] == rest[i];
    if InOrder(all) {
      forall e | e in rest && e.inode == first.inode
        ensures first.End() <= e.offset
      {
        var i :| 0 <= i < |rest| && rest[i] == e;
        assert all[0] == first && all[i + 1] == e;
      }
      forall i, j | 0 <= i < j < |rest| && rest[i].inode == rest[j].inode
        ensures rest[i].End() <= rest[j].offset
      {
        assert all[i + 1].End() <= all[j + 1].offset;
      }
    }
  }

  lemma {:induction false} SurvivingInOrder(landed: seq<Entry>, inode: Inode, len: nat)
    requires InOrder(landed)
    ensures InOrder(Surviving(landed, inode, len))
  {
    if landed != [] {
      assert landed == [landed[0]] + landed[1..];
      InOrderCons(landed[0], landed[1..]);
      SurvivingInOrder(landed[1..], inode, len);
      SurvivingIsSub(landed[1..], inode, len);
      InOrderCons(landed[0], Surviving(landed[1..], inode, len));
    }
  }

  lemma AppendKeeps(w: World, line: Bytes, a: Answers, repaired: bool)
    requires Kept(w) && Fair(w.state, Append(line, a)) && Safe(w.state, Append(line, a), repaired)
    ensures Kept(Step(w, Append(line, a), repaired))
  {
    var s := w.state;
    var t := Appended(s, line, a, repaired);
    FlagAfterReattach(s, a);
    if repaired {
      RepairedFlagStaysSound(s, line, a);
    } else {
      FlagStaysSoundExactly(s, line, a);
    }
    forall i | 0 <= i < |w.landed|
      ensures w.landed[i].inode in t.data
      ensures IsWholeLine(t.data[w.landed[i].inode], w.landed[i].offset, w.landed[i].line)
      ensures a.writing.WritesAll? && w.landed[i].inode == t.held ==>
                w.landed[i].End() <= Landing(s, line, a).offset
    {
      var e := w.landed[i];
      AppendOnlyAdds(s, line, a, repaired, e.inode);
      WholeLineInLonger(s.data[e.inode], t.data[e.inode], e.offset, e.line);
    }
    if a.writing.WritesAll? {
      NewRecordIsWhole(s, line, a, repaired);
    }
  }

  lemma TruncateKeeps(w: World, inode: Inode, len: nat, repaired: bool)
    requires Kept(w) && Fair(w.state, Truncate(inode, len))
    ensures Kept(Step(w, Truncate(inode, len), repaired))
  {
    if inode !in w.state.data || len > |w.state.data[inode]| {
      return;
    }
    var kept := Surviving(w.landed, inode, len);
    var b := w.state.data[inode];
    SurvivingIsSub(w.landed, inode, len);
    SurvivingInOrder(w.landed, inode, len);
    forall i | 0 <= i < |kept| && kept[i].inode == inode
      ensures IsWholeLine(b[..len], kept[i].offset, kept[i].line)
    {
      assert kept[i] in kept;
      var e := kept[i];
      assert IsWholeLine(b, e.offset, e.line);
      assert b[..len][e.offset..e.offset + |e.line|] == b[e.offset..e.offset + |e.line|];
    }
    forall i | 0 <= i < |kept| && kept[i].inode != inode
      ensures kept[i].inode in w.state.data
      ensures IsWholeLine(w.state.data[kept[i].inode], kept[i].offset, kept[i].line)
    {
      assert kept[i] in kept;
    }
  }

  lemma StepKeeps(w: World, e: Event, repaired: bool)
    requires Kept(w) && Fair(w.state, e) && Safe(w.state, e, repaired)
    ensures Kept(Step(w, e, repaired))
  {
    match e {
      case Append(line, a) => AppendKeeps(w, line, a, repaired);
      case Truncate(inode, len) => TruncateKeeps(w, inode, len, repaired);
      case _ =>
    }
  }

  /** Over every fair and safe run, each record that was written and that nothing outside cut off is one
      whole line of the file it landed in, and records of one file stand in call order. */
  lemma {:induction false} RecordsStayWhole(w: World, events: seq<Event>, repaired: bool)
    requires Kept(w) && FairRun(w, events, repaired) && SafeRun(w, events, repaired)
    ensures Kept(Run(w, events, repaired))
    decreases |events|
  {
    if events != [] {
      StepKeeps(w, events[0], repaired);
      RecordsStayWhole(Step(w, events[0], repaired), events[1..], repaired);
    }
  }

  // ---------------------------------------------------------------------------
  // One record, whatever follows it
  // ---------------------------------------------------------------------------

  /** Nothing outside cuts the file below `len` bytes. */
  predicate NotCutBelow(events: seq<Event>, inode: Inode, len: nat) {
    forall i :: 0 <= i < |events| && events[i].Truncate? && events[i].inode == inode ==> events[i].len >= len
  }

  /** Two files agree on their first `len` bytes. */
  predicate SameStart(b: Bytes, c: Bytes, len: nat) {
    len <= |b| && len <= |c| && b[..len] == c[..len]
  }

  lemma StepKeepsStart(w: World, e: Event, inode: Inode, len: nat, repaired: bool)
    requires Valid(w.state) && Fresh(w.state, e) && inode in w.state.data && len <= |w.state.data[inode]|
    requires e.Truncate? && e.inode == inode ==> e.len >= len
    ensures var after := Step(w, e, repaired).state;
            inode in after.data && SameStart(w.state.data[inode], after.data[inode], len)
  {
    if e.Append? {
      AppendOnlyAdds(w.state, e.line, e.answers, repaired, inode);
      var b, c := w.state.data[inode], Step(w, e, repaired).state.data[inode];
      assert b[..len] == c[..|b|][..len] == c[..len];
    }
  }

  lemma {:induction false} RunKeepsStart(w: World, events: seq<Event>, inode: Inode, len: nat, repaired: bool)
    requires Valid(w.state) && FreshRun(w, events, repaired) && NotCutBelow(events, inode, len)
    requires inode in w.state.data && len <= |w.state.data[inode]|
    ensures var after := Run(w, events, repaired).state;
            inode in after.data && SameStart(w.state.data[inode], after.data[inode], len)
    decreases |events|
  {
    if events != [] {
      StepValid(w, events[0], repaired);
      StepKeepsStart(w, events[0], inode, len, repaired);
      assert forall i :: 0 <= i < |events[1..]| ==> events[1..][i] == events[i + 1];
      RunKeepsStart(Step(w, events[0], repaired), events[1..], inode, len, repaired);
    }
  }

  lemma WholeLineByStart(b: Bytes, c: Bytes, offset: nat, line: Bytes)
    requires SameStart(b, c, offset + |line| + 1)
    ensures IsWholeLine(b, offset, line) <==> IsWholeLine(c, offset, line)
  {
    var n := offset + |line| + 1;
    assert forall i :: 0 <= i < n ==> b[i] == b[..n][i] && c[i] == c[..n][i];
    assert b[offset..offset + |line|] == b[..n][offset..offset + |line|];
    assert c[offset..offset + |line|] == c[..n][offset..offset + |line|];
  }

  /** A record whose write succeeded, and whatever run follows: as long as nothing outside cuts into it, it is
      one whole line for good or never, by whether the flag was sound when it was written. */
  lemma RecordIsWholeExactly(w: World, line: Bytes, a: Answers, events: seq<Event>, repaired: bool)
    requires Valid(w.state) && NEWLINE !in line && Fresh(w.state, Append(line, a)) && a.writing.WritesAll?
    requires Valid(Step(w, Append(line, a), repaired).state)
    requires FreshRun(Step(w, Append(line, a), repaired), events, repaired)
    requires NotCutBelow(events, Landing(w.state, line, a).inode, Landing(w.state, line, a).End())
    ensures Valid(Reattached(w.state, a))
    ensures var e := Landing(w.state, line, a);
            var end := Run(Step(w, Append(line, a), repaired), events, repaired).state;
            e.inode in end.data &&
            (IsWholeLine(end.data[e.inode], e.offset, line) <==> FlagSound(Reattached(w.state, a)))
  {
    var e := Landing(w.state, line, a);
    var written := Step(w, Append(line, a), repaired);
    NewRecordIsWhole(w.state, line, a, repaired);
    RunKeepsStart(written, events, e.inode, e.End(), repaired);
    WholeLineByStart(written.state.data[e.inode], Run(written, events, repaired).state.data[e.inode], e.offset, line);
  }

  // ---------------------------------------------------------------------------
  // What "one whole line" means to a reader of the file
  // ---------------------------------------------------------------------------

  /** The lines of a file, split at newlines; the last one is what follows the last newline. */
  function Lines(b: Bytes): seq<Bytes> {
    if b == [] then [[]]
    else if b[0] == NEWLINE then [[]] + Lines(b[1..])
    else [[b[0]] + Lines(b[1..])[0]] + Lines(b[1..])[1..]
  }

  function Newlines(b: Bytes): nat {
    if b == [] then 0 else (if b[0] == NEWLINE then 1 else 0) + Newlines(b[1..])
  }

  lemma {:induction false} LinesCount(b: Bytes)
    ensures |Lines(b)| == Newlines(b) + 1
  {
    if b != [] {
      LinesCount(b[1..]);
    }
  }

  /** Up to a newline the lines are those of the part in front of it. */
  lemma {:induction false} LinesAppend(a: Bytes, b: Bytes)
    ensures Lines(a + [NEWLINE] + b) == Lines(a) + Lines(b)
  {
    if a == [] {
      assert a + [NEWLINE] + b == [NEWLINE] + b;
      assert ([NEWLINE] + b)[1..] == b;
    } else {
      assert (a + [NEWLINE] + b)[1..] == a[1..] + [NEWLINE] + b;
      LinesAppend(a[1..], b);
    }
  }

  lemma {:induction false} OneLine(line: Bytes)
    requires NEWLINE !in line
    ensures Lines(line) == [line]
  {
    if line != [] {
      OneLine(line[1..]);
      assert line == [line[0]] + line[1..];
    }
  }

  lemma {:induction false} NewlinesSplit(a: Bytes, b: Bytes)
    ensures Newlines(a + b) == Newlines(a) + Newlines(b)
  {
    if a == [] {
      assert a + b == b;
    } else {
      assert (a + b)[1..] == a[1..] + b;
      NewlinesSplit(a[1..], b);
    }
  }

  /** A record's line is the one after as many lines as there are newlines in front of it: nothing
      else is on it. */
  lemma WholeLineIsALine(b: Bytes, offset: nat, line: Bytes)
    requires IsWholeLine(b, offset, line)
    ensures Newlines(b[..offset]) < |Lines(b)| && Lines(b)[Newlines(b[..offset])] == line
  {
    var rest := line + [NEWLINE] + b[offset + |line| + 1..];
    assert b[offset..] == rest;
    LineHeads(line, b[offset + |line| + 1..]);
    if offset == 0 {
      assert b == rest;
    } else {
      var front := b[..offset - 1];
      assert b == front + [NEWLINE] + rest;
      assert b[..offset] == front + [NEWLINE];
      LinesAppend(front, rest);
      LinesCount(front);
      NewlinesSplit(front, [NEWLINE]);
    }
  }

  lemma LineHeads(line: Bytes, rest: Bytes)
    requires NEWLINE !in line
    ensures Lines(line + [NEWLINE] + rest) != [] && Lines(line + [NEWLINE] + rest)[0] == line
  {
    OneLine(line);
    LinesAppend(line, rest);
  }

  /** Two records of one file never share a line, in any world such a run reaches. */
  lemma RecordsNeverShareALine(w: World, i: nat, j: nat)
    requires Kept(w) && i < j < |w.landed| && w.landed[i].inode == w.landed[j].inode
    ensures var b := w.state.data[w.landed[i].inode];
            Newlines(b[..w.landed[i].offset]) < Newlines(b[..w.landed[j].offset])
  {
    var e, f := w.landed[i], w.landed[j];
    var b := w.state.data[e.inode];
    assert e.End() <= f.offset;
    assert b[..f.offset] == b[..e.offset] + (e.line + ([NEWLINE] + b[e.End()..f.offset]));
    NewlinesSplit(b[..e.offset], e.line + ([NEWLINE] + b[e.End()..f.offset]));
    NewlinesSplit(e.line, [NEWLINE] + b[e.End()..f.offset]);
  }

  // ---------------------------------------------------------------------------
  // The run that breaks the promise
  // ---------------------------------------------------------------------------

  /** A write that stops after `n` bytes on an attached log, with the rollback as given. */
  function ShortWrite(n: nat, created: Inode, truncates: bool): Answers {
    Answers(false, OpenFails(false), created, true, WritesPart(n), truncates, true)
  }

  function FullWrite(created: Inode): Answers {
    Answers(false, OpenFails(false), created, true, WritesAll, true, true)
  }

  /** From any attached log with a clear flag: one byte of a record gets out and cannot be taken
      back, the next record fails and is rolled back, and the third one is written whole, right
      behind the stray byte. */
  lemma RollbackForgetsTheBrokenLine(w: World, first: Bytes, second: Bytes, third: Bytes, created: Inode)
    requires Valid(w.state) && Attached(w.state) && !w.state.unterminated && created !in w.state.data
    requires NEWLINE !in first && NEWLINE !in second && NEWLINE !in third && first != []
    ensures var events := [Append(first, ShortWrite(1, created, false)),
                           Append(second, ShortWrite(0, created, true)),
                           Append(third, FullWrite(created))];
            var end := Run(w, events, false);
            var before := w.state.data[w.state.held];
            && end.landed == w.landed + [Entry(w.state.held, |before| + 1, third)]
            && w.state.held in end.state.data
            && end.state.data[w.state.held] == before + [first[0]] + third + [NEWLINE]
            && !IsWholeLine(end.state.data[w.state.held], |before| + 1, third)
            && FairRun(w, events, false) && !SafeRun(w, events, false) && !FlagSound(Run(w, events[..2], false).state)
  {
    var e1 := Append(first, ShortWrite(1, created, false));
    var e2 := Append(second, ShortWrite(0, created, true));
    var e3 := Append(third, FullWrite(created));
    var w1 := OneByteStays(w, first, created);
    var w2 := RollbackClears(w1, second, created);
    UnsoundFlagFuses(w2.state, third, FullWrite(created), false);
    RunOfThree(w, e1, e2, e3);
    assert [e1, e2, e3][..2] == [e1, e2];
  }

  lemma OneByteStays(w: World, line: Bytes, created: Inode) returns (after: World)
    requires Valid(w.state) && Attached(w.state) && !w.state.unterminated && line != [] && NEWLINE !in line
    requires created !in w.state.data
    ensures after == Step(w, Append(line, ShortWrite(1, created, false)), false) && Valid(after.state)
    ensures after.state.data == w.state.data[w.state.held := w.state.data[w.state.held] + [line[0]]]
    ensures Attached(after.state) && after.state.unterminated && after.state.held == w.state.held
    ensures after.landed == w.landed && line[0] != NEWLINE
  {
    after := Step(w, Append(line, ShortWrite(1, created, false)), false);
    StepValid(w, Append(line, ShortWrite(1, created, false)), false);
    assert Buffer(w.state, line)[..1] == [line[0]];
  }

  lemma RollbackClears(w: World, line: Bytes, created: Inode) returns (after: World)
    requires Valid(w.state) && Attached(w.state) && w.state.unterminated && EndsMidLine(w.state.data[w.state.held])
    ensures after == Step(w, Append(line, ShortWrite(0, created, true)), false) && Valid(after.state)
    ensures after.state.data == w.state.data && after.landed == w.landed
    ensures Attached(after.state) && !after.state.unterminated && after.state.held == w.state.held
    ensures ClearsWrongly(w.state, ShortWrite(0, created, true))
  {
    var before := w.state.data[w.state.held];
    after := Step(w, Append(line, ShortWrite(0, created, true)), false);
    StepValid(w, Append(line, ShortWrite(0, created, true)), false);
    assert before + Buffer(w.state, line)[..0] == before && before[..|before|] == before;
  }

  lemma RunOfThree(w: World, a: Event, b: Event, c: Event)
    requires Valid(w.state)
    ensures var w1 := Step(w, a, false);
            var w2 := if Valid(w1.state) then Step(w1, b, false) else w1;
            Valid(w1.state) && Valid(w2.state) &&
            Run(w, [a, b], false) == w2 && Run(w, [a, b, c], false) == Step(w2, c, false) &&
            (FairRun(w, [a, b, c], false) <==> Fair(w.state, a) && Fair(w1.state, b) && Fair(w2.state, c)) &&
            (SafeRun(w, [a, b, c], false) <==>
               Safe(w.state, a, false) && Safe(w1.state, b, false) && Safe(w2.state, c, false))
  {
    StepValid(w, a, false);
    var w1 := Step(w, a, false);
    StepValid(w1, b, false);
    var w2 := Step(w1, b, false);
    StepValid(w2, c, false);
    var w3 := Step(w2, c, false);
    var more, last := [b, c], [c];
    assert [a, b, c][1..] == more && more[1..] == last && last[1..] == [];
    assert [a, b][1..] == [b] && [b][1..] == [];
    assert Run(w3, [], false) == w3 && FairRun(w3, [], false) && SafeRun(w3, [], false);
    assert Run(w2, [], false) == w2 && Run(w2, last, false) == w3;
    assert FairRun(w2, last, false) <==> Fair(w2.state, c);
    assert SafeRun(w2, last, false) <==> Safe(w2.state, c, false);
    assert Run(w1, [b], false) == w2 && Run(w1, more, false) == w3;
    assert FairRun(w1, more, false) <==> Fair(w1.state, b) && Fair(w2.state, c);
    assert SafeRun(w1, more, false) <==> Safe(w1.state, b, false) && Safe(w2.state, c, false);
  }

  /** Wherever the flag is clear on a broken line, the next record that is written joins that line. */
  lemma UnsoundFlagFuses(s: State, line: Bytes, a: Answers, repaired: bool)
    requires Valid(s) && !FlagSound(s) && a.created !in s.data
    requires !MustReopen(s, a) && a.writing.WritesAll?
    ensures var e := Landing(s, line, a);
            var t := Appended(s, line, a, repaired);
            t.data[t.held] == s.data[s.held] + line + [NEWLINE] &&
            e.offset == |s.data[s.held]| && !IsWholeLine(t.data[t.held], e.offset, line)
  {
    var before := s.data[s.held];
    var t := Appended(s, line, a, repaired);
    assert t.data[t.held] == before + ([] + line + [NEWLINE]);
    assert t.data[t.held][|before| - 1] == before[|before| - 1];
  }

  /** A record written behind a blind reopening joins the broken line, with the repaired flag too: the
      append cannot know better. */
  lemma BlindReopeningFuses(s: State, line: Bytes, a: Answers, repaired: bool)
    requires Valid(s) && a.created !in s.data && ReopensBlindly(s, a) && a.writing.WritesAll? && NEWLINE !in line
    ensures var e := Landing(s, line, a);
            var t := Appended(s, line, a, repaired);
            e.inode == s.names[s.path] && e.inode in t.data &&
            t.data[e.inode] == s.data[e.inode] + line + [NEWLINE] && !IsWholeLine(t.data[e.inode], e.offset, line)
  {
    NewRecordIsWhole(s, line, a, repaired);
    var before := s.data[s.names[s.path]];
    assert before + ([] + line + [NEWLINE]) == before + line + [NEWLINE];
  }

  /** The log was renamed away, and its path now names a file that ends in `a` and can only be written:
      the flag was sound, nothing was cleared wrongly, and after a rollback it is unsound. */
  lemma BlindReopeningLosesTheFlag(line: Bytes, repaired: bool)
    ensures var s := State(map["log" := 1], map[0 := [], 1 := [0x61]], "log", 0, false, None);
            var a := Answers(false, Opens(false), 2, true, WritesPart(0), true, true);
            Valid(s) && FlagSound(s) && Fresh(s, Append(line, a)) && ReopensBlindly(s, a) && !ClearsWrongly(s, a) &&
            Valid(Appended(s, line, a, repaired)) && !FlagSound(Appended(s, line, a, repaired))
  {
    var s := State(map["log" := 1], map[0 := [], 1 := [0x61]], "log", 0, false, None);
    var a := Answers(false, Opens(false), 2, true, WritesPart(0), true, true);
    FlagStaysSoundExactly(s, line, a);
    RepairedFlagStaysSound(s, line, a);
  }

  // ---------------------------------------------------------------------------
  // Where a record lands, and when the log says that something was removed
  // ---------------------------------------------------------------------------

  /** A record that is written goes to one file only, and to the one the configured path names,
      unless the stat or the reopening failed at this append. */
  lemma LandsAtTheConfiguredPath(s: State, line: Bytes, a: Answers, repaired: bool, other: Inode)
    requires Valid(s) && a.created !in s.data && a.writing.WritesAll?
    requires !a.statFails && (Attached(s) || a.opening.Opens?)
    ensures var t := Appended(s, line, a, repaired);
            Valid(t) && t.path == s.path && Attached(t) && Landing(s, line, a).inode == t.names[t.path] &&
            (other in s.data && other != t.held ==> t.data[other] == s.data[other])
  {
    ReattachedValid(s, a);
  }

  /** Otherwise it goes to the file that was held already. */
  lemma LandsInTheHeldFile(s: State, line: Bytes, a: Answers, repaired: bool)
    requires Valid(s) && a.writing.WritesAll?
    requires a.statFails || (!Attached(s) && a.opening.OpenFails?)
    ensures Appended(s, line, a, repaired).held == s.held && Landing(s, line, a).inode == s.held
  {
    ReattachedValid(s, a);
  }

  /** What the log remembers of the size is what the file has. */
  predicate SizeKnown(s: State)
    requires Valid(s)
  {
    s.lastSize.Some? ==> s.lastSize.value == |s.data[s.held]|
  }

  predicate NothingRemoved(events: seq<Event>) {
    forall i :: 0 <= i < |events| ==> !events[i].Truncate?
  }

  /** In a run in which nothing outside cuts a file, no append warns, rollbacks and reopenings
      included. */
  lemma {:induction false} NoFalseAlarm(w: World, events: seq<Event>, repaired: bool, a: Answers)
    requires Valid(w.state) && SizeKnown(w.state) && NothingRemoved(events)
    requires FreshRun(w, events + [Append([], a)], repaired)
    ensures !Warns(Run(w, events, repaired).state, a)
    decreases |events|
  {
    if events == [] {
      ReattachedValid(w.state, a);
    } else {
      StepValid(w, events[0], repaired);
      assert SizeKnown(Step(w, events[0], repaired).state);
      assert forall i :: 0 <= i < |events[1..]| ==> events[1..][i] == events[i + 1];
      assert (events + [Append([], a)])[1..] == events[1..] + [Append([], a)];
      NoFalseAlarm(Step(w, events[0], repaired), events[1..], repaired, a);
    }
  }

  /** The log remembers the size that the held file has. */
  predicate Remembers(s: State)
    requires Valid(s)
  {
    s.lastSize == Some(|s.data[s.held]|)
  }

  /** An append that can tell the size behind it remembers it, from whatever state. */
  lemma AppendRemembers(s: State, line: Bytes, a: Answers, repaired: bool)
    requires Valid(s) && a.sizeAfterKnown
    ensures Valid(Appended(s, line, a, repaired)) && Remembers(Appended(s, line, a, repaired))
  {
    ReattachedValid(s, a);
  }

  /** Appends can tell the size behind them, and nothing outside cuts a file. */
  predicate KeepsRemembering(events: seq<Event>) {
    forall i :: 0 <= i < |events| ==>
      !events[i].Truncate? && (events[i].Append? ==> events[i].answers.sizeAfterKnown)
  }

  lemma {:induction false} RunRemembers(w: World, events: seq<Event>, repaired: bool)
    requires Valid(w.state) && Remembers(w.state) && FreshRun(w, events, repaired) && KeepsRemembering(events)
    ensures Remembers(Run(w, events, repaired).state)
    decreases |events|
  {
    if events != [] {
      StepValid(w, events[0], repaired);
      if events[0].Append? {
        AppendRemembers(w.state, events[0].line, events[0].answers, repaired);
      }
      assert forall i :: 0 <= i < |events[1..]| ==> events[1..][i] == events[i + 1];
      RunRemembers(Step(w, events[0], repaired), events[1..], repaired);
    }
  }

  /** After an append that could tell the size, and whatever renames, replacements and further such appends,
      a cut of the held file is reported by the next append that can tell the size and does not reopen, if
      and only if it took something away. */
  lemma LossIsReported(w: World, line: Bytes, a: Answers, events: seq<Event>, len: nat, next: Answers, repaired: bool)
    requires Valid(w.state) && Fresh(w.state, Append(line, a)) && a.sizeAfterKnown
    requires Valid(Step(w, Append(line, a), repaired).state)
    requires FreshRun(Step(w, Append(line, a), repaired), events, repaired) && KeepsRemembering(events)
    ensures var end := Run(Step(w, Append(line, a), repaired), events, repaired);
            var cut := Step(end, Truncate(end.state.held, len), repaired);
            Valid(cut.state) &&
            (next.sizeKnown && !MustReopen(cut.state, next) ==>
               (Warns(cut.state, next) <==> len < |end.state.data[end.state.held]|))
  {
    AppendRemembers(w.state, line, a, repaired);
    RunRemembers(Step(w, Append(line, a), repaired), events, repaired);
    var end := Run(Step(w, Append(line, a), repaired), events, repaired);
    StepValid(end, Truncate(end.state.held, len), repaired);
  }

  // ---------------------------------------------------------------------------
  // The bytes of one append
  // ---------------------------------------------------------------------------

  /** What an append to the file that is held makes of it, byte for byte: the record and its newline, behind
      one that closes a broken line; nothing, when a failed write is taken back; or a part of all that, short
      of its last byte. */
  lemma AppendedBytes(s: State, line: Bytes, a: Answers, repaired: bool)
    requires Valid(s) && !MustReopen(s, a)
    ensures var before := s.data[s.held];
            var whole := (if s.unterminated then before + [0x0A] else before) + line + [0x0A];
            var t := Appended(s, line, a, repaired);
            t.names == s.names && t.held == s.held && t.path == s.path &&
            t.data == s.data[s.held := t.data[s.held]] &&
            t.lastSize == (if a.sizeAfterKnown then Some(|t.data[s.held]|) else None) &&
            match a.writing
            case WritesAll => t.data[s.held] == whole && !t.unterminated
            case WritesPart(_) =>
              if a.sizeKnown && a.truncates then
                t.data[s.held] == before && t.unterminated == (repaired && s.unterminated)
              else t.unterminated && before <= t.data[s.held] < whole
  {
    var before := s.data[s.held];
    var buf := Buffer(s, line);
    var partial := before + Reaching(buf, a.writing);
    assert before + buf == (if s.unterminated then before + [0x0A] else before) + line + [0x0A];
    assert partial[..|before|] == before;
  }

  /** Where it cannot reopen, or need not, nothing changes but for the empty file that a failing open may have
      left. */
  lemma KeptHandle(s: State, a: Answers)
    requires Valid(s) && (!MustReopen(s, a) || a.opening.OpenFails?)
    ensures var r := Reattached(s, a);
            r.held == s.held && r.path == s.path && r.unterminated == s.unterminated && r.lastSize == s.lastSize &&
            if MustReopen(s, a) && a.opening.creates && s.path !in s.names then
              r.names == s.names[s.path := a.created] && r.data == s.data[a.created := []]
            else r.names == s.names && r.data == s.data
  {
  }

  /** It has to reopen exactly when the stat works and finds another file at the path, or none. */
  lemma WhenToReopen(s: State, a: Answers)
    ensures MustReopen(s, a) <==> !a.statFails && (s.path in s.names ==> s.names[s.path] != s.held)
  {
  }

  /** Where an append reopens, it writes to the file that the path names, empty when there was none, and
      knows of it what its last byte says. */
  lemma ReopenedHandle(s: State, a: Answers)
    requires Valid(s) && MustReopen(s, a) && a.opening.Opens?
    ensures var r := Reattached(s, a);
            Valid(r) && r.path in r.names && r.held == r.names[r.path] && r.lastSize == None && r.path == s.path &&
            r.unterminated ==
              (a.opening.readable && r.data[r.held] != [] && r.data[r.held][|r.data[r.held]| - 1] != 0x0A) &&
            (if s.path in s.names then r.names == s.names && r.data == s.data
             else r.names == s.names[s.path := a.created] && r.data == s.data[a.created := []])
  {
    ReattachedValid(s, a);
  }

  /** The repaired flag needs no premise about what fails: over every fair run all records stay whole
      lines. */
  lemma RepairedRecordsStayWhole(w: World, events: seq<Event>)
    requires Kept(w) && FairRun(w, events, true)
    ensures Kept(Run(w, events, true))
  {
    RepairedIsSafe(w, events);
    RecordsStayWhole(w, events, true);
  }

  lemma {:induction false} RepairedIsSafe(w: World, events: seq<Event>)
    requires Valid(w.state)
    ensures SafeRun(w, events, true)
    decreases |events|
  {
    if events != [] {
      StepValid(w, events[0], true);
      RepairedIsSafe(Step(w, events[0], true), events[1..]);
    }
  }
}
