/**
 The accepted-write lifecycle as a state machine over values: accept, complete,
 begin a cutover, recertify or abort each write, cancel or activate.
 */
module HaLifecycle {
  import opened Wrappers
  import opened Digests
  import opened HaTypes

  datatype Lifecycle = Lifecycle(contract: Contract, writes: Writes, cutover: Option<Cutover>)

  const MANIFEST_VERSION: nat := 2

  datatype Manifest = Manifest(version: nat, cutover: Cutover, spec: nat, resolutions: seq<Resolution>,
                               hash: Digest)

  datatype Action =
    | Accept(commands: seq<Command>)
    | Complete(completions: seq<(CommandIdentity, Digest)>)
    | Begin(to: Contract, membership: Membership)
    | Recertify(identity: CommandIdentity, command: Command)
    | AbortWrite(identity: CommandIdentity, reason: string)
    | Cancel
    | Activate(manifest: Manifest, membership: Membership)
    | Install(incoming: seq<WriteRecord>, cutover: Option<Cutover>)

  /** One record agrees with its key, the contract and the active cutover. */
  predicate RecordOk(h: Hashes, contract: Contract, cutover: Option<Cutover>,
                     k: CommandIdentity, r: WriteRecord)
  {
    && r.command.identity == k && ValidRecord(h, r) && r.contract == contract
    && (if cutover.Some? then MatchesCutover(cutover.value, r.disposition) else r.disposition.Pending?)
  }

  /** Holds in every reachable engine state. */
  ghost predicate Inv(h: Hashes, l: Lifecycle) {
    && ValidContract(l.contract) && ValidCutover(l.contract, l.cutover)
    && |l.writes| <= MAX_ACCEPTED_WRITES
    && TotalBytes(l.writes) <= MAX_ACCEPTED_COMMAND_BYTES
    && forall k :: k in l.writes ==> RecordOk(h, l.contract, l.cutover, k, l.writes[k])
  }

  /** The parts of the invariant that speak of single records. */
  lemma {:induction false} InvRecords(h: Hashes, l: Lifecycle)
    requires Inv(h, l)
    ensures ValidContract(l.contract) && ValidCutover(l.contract, l.cutover)
    ensures forall k :: k in l.writes ==>
              l.writes[k].command.identity == k && l.writes[k].contract == l.contract
              && RecordOk(h, l.contract, l.cutover, k, l.writes[k])
  {
  }

  function Fresh(contract: Contract): Lifecycle {
    Lifecycle(contract, map[], None)
  }

  /** Records a command list adds; `None` when a command conflicts with an
      accepted one or is new while a cutover fences admission. */
  function Additions(h: Hashes, l: Lifecycle, commands: seq<Command>): Option<Writes> {
    if commands == [] then Some(map[])
    else
      match Additions(h, l, commands[..|commands| - 1])
      case None => None
      case Some(adds) => AddOne(h, l, adds, commands[|commands| - 1])
  }

  function AddOne(h: Hashes, l: Lifecycle, adds: Writes, c: Command): Option<Writes> {
    var known := if c.identity in l.writes then Some(l.writes[c.identity])
                 else if c.identity in adds then Some(adds[c.identity]) else None;
    if known.Some? then (if known.value.commandHash == h.command(c) then Some(adds) else None)
    else if l.cutover.Some? then None
    else Some(adds[c.identity := WriteRecord(c, h.command(c), l.contract, Pending)])
  }

  ghost function AcceptAll(h: Hashes, l: Lifecycle, commands: seq<Command>): Option<Lifecycle> {
    if |commands| > MAX_ACCEPTED_WRITES
       || (exists i :: 0 <= i < |commands| && !ValidCommand(commands[i])) then None
    else if commands == [] then Some(l)
    else
      var adds := Additions(h, l, commands);
      if adds.None? || |l.writes| + |adds.value| > MAX_ACCEPTED_WRITES
         || TotalBytes(l.writes + adds.value) > MAX_ACCEPTED_COMMAND_BYTES then None
      else Some(l.(writes := l.writes + adds.value))
  }

  /** The completion names a pending write by its current hash. */
  predicate Completable(w: Writes, c: (CommandIdentity, Digest)) {
    c.0 in w && w[c.0].commandHash == c.1 && w[c.0].disposition.Pending?
  }

  function Named(completions: seq<(CommandIdentity, Digest)>): set<CommandIdentity> {
    set i | 0 <= i < |completions| :: completions[i].0
  }

  function CompleteAll(l: Lifecycle, completions: seq<(CommandIdentity, Digest)>): Option<Lifecycle> {
    if |completions| > MAX_ACCEPTED_WRITES
       || (exists i :: 0 <= i < |completions| && !Completable(l.writes, completions[i])) then None
    else Some(l.(writes := l.writes - Named(completions)))
  }

  function BeginCutover(l: Lifecycle, to: Contract, membership: Membership): Option<Lifecycle> {
    if !ValidContract(to) || l.cutover.Some? || !Advances(l.contract, to) then None
    else Some(l.(cutover := Some(Cutover(l.contract, to, membership))))
  }

  /** Gives a pending source-contract write a resolution; repeating the same
      resolution changes nothing, a different one is refused. */
  ghost function Resolve(l: Lifecycle, id: CommandIdentity, d: Disposition, extraBytes: nat): Option<Lifecycle> {
    if l.cutover.None? || id !in l.writes || l.writes[id].contract != l.cutover.value.from then None
    else if l.writes[id].disposition == d then Some(l)
    else if !l.writes[id].disposition.Pending?
            || TotalBytes(l.writes) + extraBytes > MAX_ACCEPTED_COMMAND_BYTES then None
    else Some(l.(writes := l.writes[id := l.writes[id].(disposition := d)]))
  }

  ghost function RecertifyAs(h: Hashes, l: Lifecycle, id: CommandIdentity, c: Command): Option<Lifecycle> {
    if l.cutover.None? || !ValidCommand(c) || c.identity != id then None
    else Resolve(l, id, Recertified(l.cutover.value.from, l.cutover.value.to, c, h.command(c)), |c.bytes|)
  }

  ghost function AbortAccepted(l: Lifecycle, id: CommandIdentity, reason: string): Option<Lifecycle> {
    if l.cutover.None? || |reason| == 0 || |reason| > MAX_ABORT_REASON_BYTES then None
    else Resolve(l, id, Aborted(l.cutover.value.from, reason), 0)
  }

  function Unresolved(w: Writes, from: Contract): Writes {
    map k | k in w :: if w[k].contract == from then w[k].(disposition := Pending) else w[k]
  }

  function CancelCutover(l: Lifecycle): Option<Lifecycle> {
    if l.cutover.None? then None
    else Some(Lifecycle(l.contract, Unresolved(l.writes, l.cutover.value.from), None))
  }

  predicate CanonicalResolutions(rs: seq<Resolution>) {
    forall i, j :: 0 <= i < j < |rs| ==> Precedes(rs[i].identity, rs[j].identity)
  }

  /** Bytes of the translated commands a resolution list carries. */
  function TranslatedBytes(rs: seq<Resolution>): nat {
    if rs == [] then 0
    else
      var d := rs[|rs| - 1].disposition;
      TranslatedBytes(rs[..|rs| - 1]) + (if d.Recertified? then |d.command.bytes| else 0)
  }

  predicate ValidManifest(h: Hashes, m: Manifest) {
    && m.version == MANIFEST_VERSION
    && ValidContract(m.cutover.from) && ValidContract(m.cutover.to)
    && m.spec == m.cutover.from.spec && Advances(m.cutover.from, m.cutover.to)
    && |m.resolutions| <= MAX_ACCEPTED_WRITES
    && CanonicalResolutions(m.resolutions)
    && (forall i :: 0 <= i < |m.resolutions| ==>
          && !m.resolutions[i].disposition.Pending?
          && MatchesCutover(m.cutover, m.resolutions[i].disposition))
    && TranslatedBytes(m.resolutions) <= MAX_ACCEPTED_COMMAND_BYTES
    && h.manifest(m.cutover, m.resolutions) == m.hash
  }

  /** Writes accepted under the route a cutover leaves. */
  function OfRoute(w: Writes, route: nat): set<CommandIdentity> {
    set k | k in w && w[k].contract.route == route
  }

  /** The resolution repeats what the engine recorded for that write. */
  predicate Confirms(w: Writes, r: Resolution) {
    && r.identity in w
    && w[r.identity].commandHash == r.commandHash
    && w[r.identity].disposition == r.disposition
  }

  /** The record a recertified write becomes under the target contract. */
  function Promoted(r: WriteRecord, d: Disposition): WriteRecord
    requires d.Recertified?
  {
    WriteRecord(d.command, d.commandHash, d.to, Pending)
  }

  /** Carries out a resolution list in order. */
  function ApplyResolutions(w: Writes, rs: seq<Resolution>): Writes {
    if rs == [] then w
    else
      var mid, r := ApplyResolutions(w, rs[..|rs| - 1]), rs[|rs| - 1];
      match r.disposition
      case Recertified(_, _, _, _) =>
        if r.identity in mid
        then mid[r.identity := Promoted(mid[r.identity], r.disposition)] else mid
      case Aborted(_, _) => mid - {r.identity}
      case Pending => mid
  }

  function ActivateCutover(h: Hashes, l: Lifecycle, m: Manifest, now: Membership): Option<Lifecycle> {
    if !ValidManifest(h, m)
       || l.cutover != Some(m.cutover) || l.contract != m.cutover.from || l.contract.spec != m.spec
       || now != m.cutover.membership
       || |m.resolutions| != |OfRoute(l.writes, m.cutover.from.route)|
       || (exists i :: 0 <= i < |m.resolutions| && !Confirms(l.writes, m.resolutions[i])) then None
    else Some(Lifecycle(m.cutover.to, ApplyResolutions(l.writes, m.resolutions), None))
  }

  /** Records keyed by their own identities. */
  function ByIdentity(rs: seq<WriteRecord>): Writes {
    if rs == [] then map[]
    else ByIdentity(rs[..|rs| - 1])[rs[|rs| - 1].command.identity := rs[|rs| - 1]]
  }

  predicate CanonicalRecords(rs: seq<WriteRecord>) {
    forall i, j :: 0 <= i < j < |rs| ==> Precedes(rs[i].command.identity, rs[j].command.identity)
  }

  /** The accepted-write list of another replica is valid under this contract. */
  ghost predicate ValidIncoming(h: Hashes, contract: Contract, cutover: Option<Cutover>, rs: seq<WriteRecord>) {
    && |rs| <= MAX_ACCEPTED_WRITES && ValidCutover(contract, cutover) && CanonicalRecords(rs)
    && (forall i :: 0 <= i < |rs| ==>
          RecordOk(h, contract, cutover, rs[i].command.identity, rs[i]))
    && TotalBytes(ByIdentity(rs)) <= MAX_ACCEPTED_COMMAND_BYTES
  }

  /** Merges the accepted writes of a recovery manifest, existing ones winning
      only when they are identical. */
  ghost function InstallWrites(h: Hashes, l: Lifecycle, rs: seq<WriteRecord>,
                               cutover: Option<Cutover>): Option<Lifecycle> {
    var incoming := ByIdentity(rs);
    var merged := incoming + l.writes;
    if !ValidIncoming(h, l.contract, cutover, rs)
       || (l.cutover.Some? && l.cutover != cutover)
       || (exists k :: k in incoming && k in l.writes && l.writes[k] != incoming[k])
       || |merged| > MAX_ACCEPTED_WRITES
       || TotalBytes(merged) > MAX_ACCEPTED_COMMAND_BYTES then None
    else Some(Lifecycle(l.contract, merged, cutover))
  }

  /** One action; `None` is a refusal that changes nothing. */
  ghost function Step(h: Hashes, l: Lifecycle, a: Action): Option<Lifecycle> {
    match a
    case Accept(commands) => AcceptAll(h, l, commands)
    case Complete(completions) => CompleteAll(l, completions)
    case Begin(to, membership) => BeginCutover(l, to, membership)
    case Recertify(id, command) => RecertifyAs(h, l, id, command)
    case AbortWrite(id, reason) => AbortAccepted(l, id, reason)
    case Cancel => CancelCutover(l)
    case Activate(manifest, membership) => ActivateCutover(h, l, manifest, membership)
    case Install(incoming, cutover) => InstallWrites(h, l, incoming, cutover)
  }

  ghost function After(h: Hashes, l: Lifecycle, a: Action): Lifecycle {
    match Step(h, l, a)
    case None => l
    case Some(next) => next
  }

  /** State after a run; refused actions are skipped. */
  ghost function Run(h: Hashes, l: Lifecycle, actions: seq<Action>): Lifecycle {
    if actions == [] then l
    else After(h, Run(h, l, actions[..|actions| - 1]), actions[|actions| - 1])
  }

  lemma {:induction false} AdditionsOk(h: Hashes, l: Lifecycle, commands: seq<Command>)
    requires Additions(h, l, commands).Some?
    requires forall i :: 0 <= i < |commands| ==> ValidCommand(commands[i])
    requires ValidContract(l.contract)
    ensures var adds := Additions(h, l, commands).value;
            && adds.Keys !! l.writes.Keys
            && (l.cutover.Some? ==> adds == map[])
            && forall k :: k in adds ==> RecordOk(h, l.contract, None, k, adds[k])
  {
    if commands != [] {
      AdditionsOk(h, l, commands[..|commands| - 1]);
    }
  }

  lemma {:induction false} AcceptKeepsInv(h: Hashes, l: Lifecycle, commands: seq<Command>)
    requires Inv(h, l) && AcceptAll(h, l, commands).Some?
    ensures Inv(h, AcceptAll(h, l, commands).value)
    ensures l.writes.Keys <= AcceptAll(h, l, commands).value.writes.Keys
    ensures forall k :: k in l.writes ==> AcceptAll(h, l, commands).value.writes[k] == l.writes[k]
  {
    if commands != [] {
      AdditionsOk(h, l, commands);
      var adds := Additions(h, l, commands).value;
      UnionSize(l.writes, adds);
    }
  }

  lemma {:induction false} UnionSize(a: Writes, b: Writes)
    requires a.Keys !! b.Keys
    ensures |a + b| == |a| + |b|
  {
    assert (a + b).Keys == a.Keys + b.Keys;
    assert |(a + b).Keys| == |a.Keys| + |b.Keys|;
  }

  /** Taking records away never raises the totals. */
  lemma {:induction false} SubtractShrinks(w: Writes, gone: set<CommandIdentity>)
    ensures TotalBytes(w - gone) <= TotalBytes(w) && |w - gone| <= |w|
    decreases |w|
  {
    if k :| k in gone && k in w {
      TotalBytesSplit(w, k);
      assert w - gone == (w - {k}) - gone;
      assert |w - {k}| < |w|;
      SubtractShrinks(w - {k}, gone);
    } else {
      assert w - gone == w;
    }
  }

  lemma {:induction false} CompleteKeepsInv(h: Hashes, l: Lifecycle, completions: seq<(CommandIdentity, Digest)>)
    requires Inv(h, l) && CompleteAll(l, completions).Some?
    ensures Inv(h, CompleteAll(l, completions).value)
  {
    SubtractShrinks(l.writes, Named(completions));
  }

  lemma {:induction false} ResolveKeepsInv(h: Hashes, l: Lifecycle, id: CommandIdentity, d: Disposition,
                                           extraBytes: nat)
    requires Inv(h, l) && l.cutover.Some? && Resolve(l, id, d, extraBytes).Some?
    requires id in l.writes ==> RecordOk(h, l.contract, l.cutover, id, l.writes[id].(disposition := d))
    requires extraBytes == if d.Recertified? then |d.command.bytes| else 0
    ensures Inv(h, Resolve(l, id, d, extraBytes).value)
  {
    SummariesReplace(h, l.writes, id, l.writes[id].(disposition := d));
    assert l.writes[id := l.writes[id].(disposition := d)].Keys == l.writes.Keys;
  }

  /** Reverting dispositions only releases translated bytes. */
  lemma {:induction false} UnresolvedShrinks(w: Writes, from: Contract)
    ensures TotalBytes(Unresolved(w, from)) <= TotalBytes(w)
    ensures |Unresolved(w, from)| == |w|
    decreases |w|
  {
    var u := Unresolved(w, from);
    assert u.Keys == w.Keys;
    if w != map[] {
      var k := AnyIdentity(w);
      TotalBytesSplit(w, k);
      TotalBytesSplit(u, k);
      assert u - {k} == Unresolved(w - {k}, from);
      assert |w - {k}| < |w|;
      UnresolvedShrinks(w - {k}, from);
    }
  }

  lemma {:induction false} CancelKeepsInv(h: Hashes, l: Lifecycle)
    requires Inv(h, l) && l.cutover.Some?
    ensures Inv(h, CancelCutover(l).value)
  {
    UnresolvedShrinks(l.writes, l.cutover.value.from);
  }

  lemma {:induction false} ByIdentityOk(rs: seq<WriteRecord>, k: CommandIdentity)
    requires k in ByIdentity(rs)
    ensures ByIdentity(rs)[k] in rs && ByIdentity(rs)[k].command.identity == k
  {
    var last := rs[|rs| - 1];
    if k != last.command.identity {
      ByIdentityOk(rs[..|rs| - 1], k);
    }
  }

  lemma {:induction false} InstallKeepsInv(h: Hashes, l: Lifecycle, rs: seq<WriteRecord>, cutover: Option<Cutover>)
    requires Inv(h, l) && InstallWrites(h, l, rs, cutover).Some?
    ensures Inv(h, InstallWrites(h, l, rs, cutover).value)
  {
    var incoming := ByIdentity(rs);
    var merged := incoming + l.writes;
    forall k | k in merged
      ensures RecordOk(h, l.contract, cutover, k, merged[k])
    {
      if k !in l.writes {
        ByIdentityOk(rs, k);
      }
    }
  }
}
