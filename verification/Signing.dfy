/**
 * The phone's signing gate: mobile/src/logic/signedContent.ts (the run's memory), checks.ts,
 * signingSheet.ts (open and confirm) and flows.ts (what is signed and sent).
 *
 * A decision's detail is a value, so a snapshot shares nothing with the page: what `frozenCopy`
 * secures is built in. The memory is the class the source keeps; the sheets are functions of it.
 */
module Signing {
  import opened Wrappers

  datatype Action = Action(fields: string)

  /** Everything under the payload hash. */
  datatype Inputs = Inputs(proposalId: string, actionText: string, m: int, n: int, action: Option<Action>, rest: string)

  datatype Execution = Execution(digest: Option<string>, seat: Option<string>)

  datatype Detail = Detail(uuid: string, payloadHash: string, actionText: string, requiredM: int, requiredN: int,
                           inputs: Inputs, execution: Option<Execution>)

  /**
   * The derivations this phone makes: the payload hash (None when the encoder refuses the inputs), a
   * payment's text and treasury digest, and whether a typed decision's text is the text signed.
   */
  datatype Derive = Derive(
    hash: Inputs -> Option<string>,
    paymentText: Action -> string,
    digest: (string, Action) -> string,
    typedHolds: Detail -> bool)

  datatype Reason = HashMismatch | PaymentText | DisplayText | DisplayPolicy | TypeText | OtherDecision | Changed

  datatype Checked = Passed(hash: string) | Failed(reason: Reason, derived: string)

  const NOT_DERIVED := "(not derived)"

  /** `verifyProposalIntegrity` and the catch around it in `checkDecision`. */
  function Integrity(dv: Derive, d: Detail): Checked {
    match dv.hash(d.inputs)
    case None => Failed(HashMismatch, NOT_DERIVED)
    case Some(hash) =>
      if hash != d.payloadHash then Failed(HashMismatch, hash)
      else if d.inputs.action.Some? && d.inputs.actionText != dv.paymentText(d.inputs.action.value) then
        Failed(PaymentText, hash)
      else if d.actionText != d.inputs.actionText then Failed(DisplayText, hash)
      else if d.requiredM != d.inputs.m || d.requiredN != d.inputs.n then Failed(DisplayPolicy, hash)
      else Passed(hash)
  }

  /** `checkDecision` */
  function CheckDecision(dv: Derive, d: Detail): Checked {
    var checked := Integrity(dv, d);
    if checked.Passed? && !dv.typedHolds(d) then Failed(TypeText, checked.hash) else checked
  }

  // ---------------------------------------------------------------- the run's memory

  /** `signedContentKey`: the signed inputs and the hash derived from them. */
  datatype Key = Key(derived: string, inputs: Inputs)

  datatype Seen = First | Same | Differs

  datatype Memory = Memory(first: map<string, Key>, changed: set<string>)

  const FORGOTTEN := Memory(map[], {})

  function See(mem: Memory, uuid: string, key: Key): (Memory, Seen) {
    if uuid in mem.changed then (mem, Differs)
    else if uuid !in mem.first then (mem.(first := mem.first[uuid := key]), First)
    else if mem.first[uuid] != key then (mem.(changed := mem.changed + {uuid}), Differs)
    else (mem, Same)
  }

  function MarkChanged(mem: Memory, uuid: string): Memory {
    mem.(changed := mem.changed + {uuid})
  }

  function Derived(checked: Checked): string {
    if checked.Passed? then checked.hash else checked.derived
  }

  /** `checkInRun` as a function of the memory. */
  function CheckInRun(dv: Derive, mem: Memory, d: Detail, route: string): (Memory, Checked) {
    var checked := CheckDecision(dv, d);
    var derived := Derived(checked);
    if d.uuid != route || d.inputs.proposalId != route then (MarkChanged(mem, route), Failed(OtherDecision, derived))
    else
      var (mem', seen) := See(mem, route, Key(derived, d.inputs));
      (mem', if seen.Differs? then Failed(Changed, derived) else checked)
  }

  class SignedContentMemory {
    var first: map<string, Key>
    var changed: set<string>

    function View(): Memory
      reads this
    {
      Memory(first, changed)
    }

    constructor ()
      ensures View() == FORGOTTEN
    {
      first, changed := map[], {};
    }

    method SeeKey(uuid: string, key: Key) returns (seen: Seen)
      modifies this
      ensures (View(), seen) == See(old(View()), uuid, key)
    {
      if uuid in changed { return Differs; }
      if uuid !in first {
        first := first[uuid := key];
        return First;
      }
      if first[uuid] != key {
        changed := changed + {uuid};
        return Differs;
      }
      seen := Same;
    }

    method Mark(uuid: string)
      modifies this
      ensures View() == MarkChanged(old(View()), uuid)
    {
      changed := changed + {uuid};
    }

    method Clear()
      modifies this
      ensures View() == FORGOTTEN
    {
      first := map[];
      changed := {};
    }

    /** `checkInRun` */
    method Check(dv: Derive, d: Detail, route: string) returns (checked: Checked)
      modifies this
      ensures (View(), checked) == CheckInRun(dv, old(View()), d, route)
    {
      checked := CheckDecision(dv, d);
      var derived := Derived(checked);
      if d.uuid != route || d.inputs.proposalId != route {
        Mark(route);
        return Failed(OtherDecision, derived);
      }
      var seen := SeeKey(route, Key(derived, d.inputs));
      if seen.Differs? { return Failed(Changed, derived); }
    }
  }

  // ---------------------------------------------------------------- the sheets

  datatype Kind = Approve | Reject

  /** What the page offers: `actions.kind`. */
  datatype Offer = OfferSign | OfferWeb | OfferReport | OfferOther

  datatype Snapshot = Snapshot(kind: Kind, detail: Detail, hash: string, key: Key)

  datatype Opened = Sheet(snapshot: Snapshot) | Tampered | NotOffered | WrongSeat | WrongDigest

  datatype Payment = NoPayment | Pays(digest: string) | BadDigest | BadSeat

  predicate StillOffered(kind: Kind, offer: Offer) {
    offer == OfferSign || (kind == Reject && offer == OfferWeb)
  }

  /** `paymentApproval` */
  function PaymentApproval(dv: Derive, d: Detail, hash: string, kind: Kind, fingerprint: string): Payment {
    if d.inputs.action.None? || kind == Reject then NoPayment
    else
      var ours := dv.digest(hash, d.inputs.action.value);
      if d.execution.None? || d.execution.value.digest != Some(ours) then BadDigest
      else if d.execution.value.seat != Some(fingerprint) then BadSeat
      else Pays(ours)
  }

  /** `openSigningSheet` */
  function OpenSheet(dv: Derive, mem: Memory, d: Detail, route: string, kind: Kind, offer: Offer,
                     fingerprint: string): (Memory, Opened) {
    if !StillOffered(kind, offer) then (mem, if offer.OfferReport? then Tampered else NotOffered)
    else
      var (mem', checked) := CheckInRun(dv, mem, d, route);
      if checked.Failed? then (mem', Tampered)
      else
        var payment := PaymentApproval(dv, d, checked.hash, kind, fingerprint);
        (mem', if payment.BadSeat? then WrongSeat else if payment.BadDigest? then WrongDigest
               else Sheet(Snapshot(kind, d, checked.hash, Key(checked.hash, d.inputs))))
  }

  datatype Confirmed = Sign(detail: Detail) | MovedOn | NotGenuine | ReasonMissing | ReasonTooLong | Ignored | OfferGone

  const REASON_MAX := 255

  /** `confirmSigning`; `reason` is the trimmed reason's code points. */
  function Confirm(dv: Derive, mem: Memory, snap: Snapshot, live: Option<Detail>, reason: seq<int>): (Memory, Confirmed) {
    var uuid := snap.detail.uuid;
    if live.Some? && live.value.uuid != uuid then (mem, MovedOn)
    else
      var (mem', now) := if live.Some? then CheckInRun(dv, mem, live.value, uuid) else (mem, Passed(snap.hash));
      if now.Failed? then (mem', MovedOn)
      else if live.Some? && Key(now.hash, live.value.inputs) != snap.key then (mem', MovedOn)
      else if uuid in mem'.changed then (mem', MovedOn)
      else if CheckDecision(dv, snap.detail) != Passed(snap.hash) then (mem', NotGenuine)
      else if snap.kind == Approve then (mem', Sign(snap.detail))
      else if reason == [] then (mem', ReasonMissing)
      else if |reason| > REASON_MAX then (mem', ReasonTooLong)
      else (mem', Sign(snap.detail))
  }

  /** `beginConfirm` with an open sheet. */
  function BeginConfirm(dv: Derive, mem: Memory, snap: Snapshot, inFlight: bool, open: bool, offer: Offer,
                        live: Option<Detail>, reason: seq<int>): (Memory, Confirmed) {
    if inFlight || !open then (mem, Ignored)
    else if !StillOffered(snap.kind, offer) then (mem, OfferGone)
    else Confirm(dv, mem, snap, live, reason)
  }

  // ---------------------------------------------------------------- what is signed and sent

  /** `voteSigningBytes` */
  datatype VoteBytes = VoteBytes(payloadHash: string, kind: Kind, signerId: int)

  datatype Identity = Identity(userId: int, fingerprint: string)

  /**
   * The phone's custody during one vote: a screen lock is set, the person confirmed the prompt, the
   * fingerprint of the key derived (None: the seed is gone), and whether the key's signatures verify.
   */
  datatype Custody = Custody(locked: bool, confirmed: bool, derivedKey: Option<string>, verifies: bool)

  datatype Voted =
    | RefusedBeforePrompt
    | RefusedAfterPrompt
    | SelfCheckFailed(uuid: string, message: VoteBytes, execution: Option<string>)
    | Sent(uuid: string, message: VoteBytes, execution: Option<string>)

  /** A signature was made, whether or not it then verified and left the phone. */
  predicate Makes(v: Voted) {
    v.Sent? || v.SelfCheckFailed?
  }

  /** `voteOnProposal`, up to and including what leaves the phone. */
  function VoteOn(dv: Derive, d: Detail, kind: Kind, me: Identity, custody: Custody): Voted {
    var checked := Integrity(dv, d);
    if checked.Failed? then RefusedBeforePrompt
    else
      var payment := PaymentApproval(dv, d, checked.hash, kind, me.fingerprint);
      if payment.BadDigest? || payment.BadSeat? || !custody.locked then RefusedBeforePrompt
      else if !custody.confirmed || custody.derivedKey.None? then RefusedAfterPrompt
      else if payment.Pays? && custody.derivedKey != Some(me.fingerprint) then RefusedAfterPrompt
      else
        var message := VoteBytes(checked.hash, kind, me.userId);
        var execution := if payment.Pays? then Some(payment.digest) else None;
        if custody.verifies then Sent(d.uuid, message, execution) else SelfCheckFailed(d.uuid, message, execution)
  }

  // ---------------------------------------------------------------- a run between two clears

  datatype Event =
    | Fetch(detail: Detail, route: string)
    | Queued(detail: Detail, route: string)
    | Open(detail: Detail, route: string, kind: Kind, offer: Offer, fingerprint: string)
    | Tap(sheet: nat, inFlight: bool, open: bool, offer: Offer, live: Option<Detail>, reason: seq<int>,
          me: Identity, custody: Custody)
    | Clear

  /** A detail handed on to be signed, from its sheet, and what came of it. */
  datatype Handed = Handed(snapshot: Snapshot, detail: Detail, me: Identity, custody: Custody, voted: Voted)

  /** The memory, the sheets opened and every detail handed on to be signed, since the last clear. */
  datatype Phone = Phone(mem: Memory, sheets: seq<Snapshot>, handed: seq<Handed>)

  const NEW_PHONE := Phone(FORGOTTEN, [], [])

  function Tapped(dv: Derive, p: Phone, e: Event): (Memory, Confirmed)
    requires e.Tap? && e.sheet < |p.sheets|
  {
    BeginConfirm(dv, p.mem, p.sheets[e.sheet], e.inFlight, e.open, e.offer, e.live, e.reason)
  }

  /** Whether the queue (approvals.ts) checks an answer at all: not one with another uuid, nor one that is no payment. */
  predicate InQueue(detail: Detail, route: string) {
    detail.uuid == route && detail.inputs.action.Some?
  }

  function Next(dv: Derive, p: Phone, e: Event): Phone {
    match e
    case Fetch(detail, route) => p.(mem := CheckInRun(dv, p.mem, detail, route).0)
    case Queued(detail, route) => if InQueue(detail, route) then p.(mem := CheckInRun(dv, p.mem, detail, route).0) else p
    case Open(detail, route, kind, offer, fingerprint) =>
      var (mem, answer) := OpenSheet(dv, p.mem, detail, route, kind, offer, fingerprint);
      p.(mem := mem, sheets := if answer.Sheet? then p.sheets + [answer.snapshot] else p.sheets)
    case Tap(sheet, _, _, _, _, _, me, custody) =>
      if sheet >= |p.sheets| then p
      else
        var (mem, step) := Tapped(dv, p, e);
        if !step.Sign? then p.(mem := mem)
        else
          var voted := VoteOn(dv, step.detail, p.sheets[sheet].kind, me, custody);
          p.(mem := mem, handed := p.handed + [Handed(p.sheets[sheet], step.detail, me, custody, voted)])
    case Clear => NEW_PHONE
  }

  ghost function Run(dv: Derive, events: seq<Event>): Phone {
    if events == [] then NEW_PHONE else Next(dv, Run(dv, events[..|events| - 1]), events[|events| - 1])
  }

  /** The snapshot passed every check, and is of the content this run first saw for its decision. */
  ghost predicate Genuine(dv: Derive, mem: Memory, snap: Snapshot) {
    && CheckDecision(dv, snap.detail) == Passed(snap.hash)
    && snap.detail.inputs.proposalId == snap.detail.uuid
    && snap.key == Key(snap.hash, snap.detail.inputs)
    && snap.detail.uuid in mem.first && mem.first[snap.detail.uuid] == snap.key
  }

  /** What was signed commits to exactly the snapshot's content. */
  ghost predicate Commits(dv: Derive, snap: Snapshot, voted: Voted) {
    && Makes(voted) && voted.uuid == snap.detail.uuid
    && voted.message.payloadHash == snap.hash == snap.detail.payloadHash
    && voted.message.kind == snap.kind
    && (voted.execution.Some? ==>
          snap.detail.inputs.action.Some? && voted.execution.value == dv.digest(snap.hash, snap.detail.inputs.action.value))
    && (voted.execution.None? ==> snap.kind == Reject || snap.detail.inputs.action.None?)
  }

  ghost predicate Sound(dv: Derive, p: Phone) {
    && (forall i :: 0 <= i < |p.sheets| ==> Genuine(dv, p.mem, p.sheets[i]))
    && (forall i :: 0 <= i < |p.handed| ==> SoundlyHanded(dv, p.mem, p.handed[i]))
  }

  /** What was handed on is the snapshot's own detail, the vote is of it, and any signature made commits to it. */
  ghost predicate SoundlyHanded(dv: Derive, mem: Memory, h: Handed) {
    && Genuine(dv, mem, h.snapshot) && h.detail == h.snapshot.detail
    && h.voted == VoteOn(dv, h.detail, h.snapshot.kind, h.me, h.custody)
    && (Makes(h.voted) ==> Commits(dv, h.snapshot, h.voted))
  }

  /**
   * A decision that shows what it signs: its hash is the one this phone derives, a payment's text is the
   * one written from the signed action, the text and the rule shown are the signed ones, and a typed
   * decision's text holds.
   */
  ghost predicate Truthful(dv: Derive, d: Detail, hash: string) {
    && dv.hash(d.inputs) == Some(hash) && d.payloadHash == hash
    && (d.inputs.action.Some? ==> d.inputs.actionText == dv.paymentText(d.inputs.action.value))
    && d.actionText == d.inputs.actionText && d.requiredM == d.inputs.m && d.requiredN == d.inputs.n
    && dv.typedHolds(d)
  }

  /** The checks pass exactly such a decision. */
  lemma CheckedExactly(dv: Derive, d: Detail, hash: string)
    ensures CheckDecision(dv, d) == Passed(hash) <==> Truthful(dv, d, hash)
  {
  }

  /** What a run remembers is only ever added to. */
  ghost predicate Remembers(before: Memory, after: Memory) {
    && (forall uuid :: uuid in before.first ==> uuid in after.first && after.first[uuid] == before.first[uuid])
    && before.changed <= after.changed
  }

  lemma NextRemembers(dv: Derive, p: Phone, e: Event)
    requires !e.Clear?
    ensures Remembers(p.mem, Next(dv, p, e).mem)
  {
    hide CheckDecision, VoteOn, PaymentApproval;
  }

  lemma StillGenuine(dv: Derive, before: Memory, after: Memory, snap: Snapshot)
    requires Genuine(dv, before, snap) && Remembers(before, after)
    ensures Genuine(dv, after, snap)
  {
  }

  lemma OpenedIsGenuine(dv: Derive, p: Phone, e: Event)
    requires e.Open?
    ensures var (mem, answer) := OpenSheet(dv, p.mem, e.detail, e.route, e.kind, e.offer, e.fingerprint);
            answer.Sheet? ==> Genuine(dv, mem, answer.snapshot)
  {
  }

  /** Any vote on a genuine snapshot's detail, under whatever identity and custody. */
  lemma VoteCommits(dv: Derive, mem: Memory, snap: Snapshot, me: Identity, custody: Custody)
    requires Genuine(dv, mem, snap)
    ensures var voted := VoteOn(dv, snap.detail, snap.kind, me, custody);
            Makes(voted) ==> Commits(dv, snap, voted)
  {
  }

  lemma SignedCommits(dv: Derive, p: Phone, e: Event)
    requires e.Tap? && e.sheet < |p.sheets| && Genuine(dv, p.mem, p.sheets[e.sheet])
    ensures var step := Tapped(dv, p, e).1;
            var voted := VoteOn(dv, p.sheets[e.sheet].detail, p.sheets[e.sheet].kind, e.me, e.custody);
            step.Sign? ==> step.detail == p.sheets[e.sheet].detail && (Makes(voted) ==> Commits(dv, p.sheets[e.sheet], voted))
  {
  }

  lemma NextIsSound(dv: Derive, p: Phone, e: Event)
    requires Sound(dv, p)
    ensures Sound(dv, Next(dv, p, e))
  {
    if !e.Clear? {
      var p' := Next(dv, p, e);
      NextRemembers(dv, p, e);
      forall i | 0 <= i < |p.sheets| ensures Genuine(dv, p'.mem, p.sheets[i]) {
        StillGenuine(dv, p.mem, p'.mem, p.sheets[i]);
      }
      forall i | 0 <= i < |p.handed| ensures SoundlyHanded(dv, p'.mem, p.handed[i]) {
        StillGenuine(dv, p.mem, p'.mem, p.handed[i].snapshot);
      }
      if e.Open? { OpenedIsGenuine(dv, p, e); }
      if e.Tap? && e.sheet < |p.sheets| { SignedCommits(dv, p, e); }
      hide Genuine, Commits, CheckInRun, BeginConfirm, VoteOn;
      assert forall i :: 0 <= i < |p'.sheets| ==> Genuine(dv, p'.mem, p'.sheets[i]);
    }
  }

  lemma {:induction false} RunIsSound(dv: Derive, events: seq<Event>)
    ensures Sound(dv, Run(dv, events))
  {
    if events != [] {
      RunIsSound(dv, events[..|events| - 1]);
      NextIsSound(dv, Run(dv, events[..|events| - 1]), events[|events| - 1]);
    }
  }

  /**
   * A vote that is still at its prompt when the run goes on: what was handed on at any moment, signed
   * any time later, after a disagreeing answer or a clear too, commits to the snapshot handed on then.
   */
  lemma LateVoteCommits(dv: Derive, events: seq<Event>, i: nat, me: Identity, custody: Custody)
    requires i < |Run(dv, events).handed|
    ensures var h := Run(dv, events).handed[i];
            var voted := VoteOn(dv, h.detail, h.snapshot.kind, me, custody);
            Makes(voted) ==> Commits(dv, h.snapshot, voted)
  {
    hide Run, VoteOn, Genuine, Commits;
    RunIsSound(dv, events);
    var p := Run(dv, events);
    assert SoundlyHanded(dv, p.mem, p.handed[i]);
    VoteCommits(dv, p.mem, p.handed[i].snapshot, me, custody);
  }

  /**
   * Between two clears, every detail ever handed on to be signed for one decision has one content: the
   * signed inputs of its first answer, under the payload hash this phone derived from them, re-checked
   * each time; and every signature made, sent or not, is over that hash.
   */
  lemma OneContentPerDecision(dv: Derive, events: seq<Event>, i: nat, j: nat)
    requires var p := Run(dv, events);
             i < |p.handed| && j < |p.handed| && p.handed[i].detail.uuid == p.handed[j].detail.uuid
    ensures var p := Run(dv, events);
            var a, b := p.handed[i], p.handed[j];
            && a.detail.inputs == b.detail.inputs && a.snapshot.key == b.snapshot.key
            && Truthful(dv, a.detail, a.detail.payloadHash) && a.detail.payloadHash == b.detail.payloadHash
            && a.detail.inputs.proposalId == a.detail.uuid
            && (Makes(a.voted) ==> a.voted.message.payloadHash == a.detail.payloadHash && a.voted.uuid == a.detail.uuid)
  {
    RunIsSound(dv, events);
    var p := Run(dv, events);
    assert SoundlyHanded(dv, p.mem, p.handed[i]) && SoundlyHanded(dv, p.mem, p.handed[j]);
    CheckedExactly(dv, p.handed[i].detail, p.handed[i].snapshot.hash);
  }

  /**
   * What a vote needs, of every detail ever handed on: a signature is made exactly with a screen lock, a
   * confirmed prompt and a key there; for an approved payment also the digest this phone derives, its own
   * seat, and the key being the enrolled one. It carries the person's number, and is sent if it verifies.
   */
  lemma VoteNeeds(dv: Derive, events: seq<Event>, i: nat)
    requires i < |Run(dv, events).handed|
    ensures var h := Run(dv, events).handed[i];
            var pays := h.snapshot.kind == Approve && h.detail.inputs.action.Some?;
            && (Makes(h.voted)
                <==> && h.custody.locked && h.custody.confirmed && h.custody.derivedKey.Some?
                     && (pays ==>
                           && h.detail.execution.Some? && h.detail.execution.value.seat == Some(h.me.fingerprint)
                           && h.detail.execution.value.digest
                              == Some(dv.digest(h.detail.payloadHash, h.detail.inputs.action.value))
                           && h.custody.derivedKey == Some(h.me.fingerprint)))
            && (Makes(h.voted) ==> h.voted.message.signerId == h.me.userId)
            && (h.voted.Sent? <==> Makes(h.voted) && h.custody.verifies)
            && (Makes(h.voted) ==> (h.voted.execution.Some? <==> pays))
  {
    RunIsSound(dv, events);
    var p := Run(dv, events);
    assert SoundlyHanded(dv, p.mem, p.handed[i]);
    CheckedExactly(dv, p.handed[i].detail, p.handed[i].snapshot.hash);
  }

  /**
   * Exactly which openings give a sheet: signing (or, to reject, the web) is what the page offers, the
   * answer names this decision and shows what it signs, it is the content remembered, and a payment to be
   * approved carries this phone's own digest and seat.
   */
  lemma OpensExactly(dv: Derive, mem: Memory, d: Detail, route: string, kind: Kind, offer: Offer, fingerprint: string)
    ensures var answer, key := OpenSheet(dv, mem, d, route, kind, offer, fingerprint).1, Key(d.payloadHash, d.inputs);
            && (answer.Sheet?
                <==> && (offer == OfferSign || (kind == Reject && offer == OfferWeb))
                     && d.uuid == route && d.inputs.proposalId == route && Truthful(dv, d, d.payloadHash)
                     && route !in mem.changed && (route in mem.first ==> mem.first[route] == key)
                     && (kind == Approve && d.inputs.action.Some? ==>
                           d.execution == Some(Execution(Some(dv.digest(d.payloadHash, d.inputs.action.value)),
                                                         Some(fingerprint)))))
            && (answer.Sheet? ==> answer.snapshot == Snapshot(kind, d, d.payloadHash, key))
  {
    CheckedExactly(dv, d, d.payloadHash);
  }

  /**
   * Exactly which taps on a run's sheet hand it on: an open sheet with nothing in flight, still offered,
   * over no page or a page of the same decision that shows what it signs and is the sheet's own content,
   * the decision not lost; and, to reject, a reason of 1 to 255 characters.
   */
  lemma TapsExactly(dv: Derive, events: seq<Event>, e: Event)
    requires e.Tap? && e.sheet < |Run(dv, events).sheets|
    ensures var p := Run(dv, events);
            var snap := p.sheets[e.sheet];
            Tapped(dv, p, e).1 == Sign(snap.detail)
            <==> && !e.inFlight && e.open && (e.offer == OfferSign || (snap.kind == Reject && e.offer == OfferWeb))
                 && snap.detail.uuid !in p.mem.changed
                 && (e.live.Some? ==>
                       && e.live.value.uuid == snap.detail.uuid && e.live.value.inputs == snap.detail.inputs
                       && Truthful(dv, e.live.value, e.live.value.payloadHash))
                 && (snap.kind == Reject ==> 1 <= |e.reason| <= 255)
  {
    RunIsSound(dv, events);
    var p := Run(dv, events);
    var snap := p.sheets[e.sheet];
    assert Genuine(dv, p.mem, snap);
    CheckedExactly(dv, snap.detail, snap.hash);
    if e.live.Some? { CheckedExactly(dv, e.live.value, e.live.value.payloadHash); }
    hide CheckDecision, Truthful, Run;
    if e.live.Some? && e.live.value.uuid == snap.detail.uuid { LiveIsSame(dv, p.mem, snap, e.live); }
  }

  /** A live page passes as the sheet's own content exactly when it shows what it signs and signs the same. */
  lemma LiveIsSame(dv: Derive, mem: Memory, snap: Snapshot, live: Option<Detail>)
    requires Genuine(dv, mem, snap) && live.Some? && live.value.uuid == snap.detail.uuid
    ensures var (mem', now) := CheckInRun(dv, mem, live.value, snap.detail.uuid);
            now.Passed? && Key(now.hash, live.value.inputs) == snap.key && snap.detail.uuid !in mem'.changed
            <==> && snap.detail.uuid !in mem.changed && live.value.inputs == snap.detail.inputs
                 && Truthful(dv, live.value, live.value.payloadHash)
  {
    CheckedExactly(dv, live.value, live.value.payloadHash);
  }

  /** Nothing is handed on for a decision that an event leaves, or finds, changed. */
  lemma NothingSignedOnceChanged(dv: Derive, p: Phone, e: Event, uuid: string)
    requires uuid in Next(dv, p, e).mem.changed && !e.Clear?
    ensures var p' := Next(dv, p, e);
            p.handed <= p'.handed
            && forall i :: |p.handed| <= i < |p'.handed| ==> p'.handed[i].detail.uuid != uuid
  {
  }

  /** From event n on, nothing is handed on for a decision that event n leaves changed; event n included. */
  lemma {:induction false} NothingSignedEverAfter(dv: Derive, events: seq<Event>, n: nat, uuid: string)
    requires n < |events| && uuid in Run(dv, events[..n + 1]).mem.changed
    requires forall k :: n <= k < |events| ==> !events[k].Clear?
    ensures var before, after := Run(dv, events[..n]), Run(dv, events);
            && uuid in after.mem.changed && |before.handed| <= |after.handed|
            && forall i :: |before.handed| <= i < |after.handed| ==> after.handed[i].detail.uuid != uuid
    decreases |events|
  {
    hide Next;
    var earlier, e := events[..|events| - 1], events[|events| - 1];
    if n == |events| - 1 {
      assert events[..n + 1] == events && earlier == events[..n];
      NothingSignedOnceChanged(dv, Run(dv, earlier), e, uuid);
    } else {
      assert earlier[..n] == events[..n] && earlier[..n + 1] == events[..n + 1];
      assert forall k :: n <= k < |earlier| ==> earlier[k] == events[k];
      NothingSignedEverAfter(dv, earlier, n, uuid);
      NextRemembers(dv, Run(dv, earlier), e);
      NothingSignedOnceChanged(dv, Run(dv, earlier), e, uuid);
    }
  }

  /** The content an answer commits to. */
  function KeyOf(dv: Derive, d: Detail): Key {
    Key(Derived(CheckDecision(dv, d)), d.inputs)
  }

  /** One of the server's answers, for the decision opened under a route. */
  datatype Answer = Answer(detail: Detail, route: string)

  /**
   * The answer an event meets: what was fetched, for the screen or for the queue; the page a sheet is
   * opened from, when it offers one; the page's latest fetch at a tap that gets that far.
   */
  function AnswerOf(p: Phone, e: Event): Option<Answer> {
    match e
    case Fetch(detail, route) => Some(Answer(detail, route))
    case Queued(detail, route) => Some(Answer(detail, route))
    case Open(detail, route, kind, offer, _) => if StillOffered(kind, offer) then Some(Answer(detail, route)) else None
    case Tap(sheet, inFlight, open, offer, live, _, _, _) =>
      if sheet < |p.sheets| && !inFlight && open && StillOffered(p.sheets[sheet].kind, offer) && live.Some?
      then Some(Answer(live.value, p.sheets[sheet].detail.uuid)) else None
    case Clear => None
  }

  /** It is passed over unchecked: at a tap when its uuid is another, in the queue also when it is no payment. */
  predicate Skipped(e: Event, a: Answer) {
    (e.Tap? && a.detail.uuid != a.route) || (e.Queued? && !InQueue(a.detail, a.route))
  }

  /** It names another decision, by its own uuid or by the one signed into it. */
  predicate Foreign(a: Answer) {
    a.detail.uuid != a.route || a.detail.inputs.proposalId != a.route
  }

  /** It was checked, and is for this decision. */
  predicate Checks(p: Phone, e: Event, route: string) {
    AnswerOf(p, e).Some? && AnswerOf(p, e).value.route == route && !Skipped(e, AnswerOf(p, e).value)
  }

  /**
   * Exactly which answers lose their decision: those checked that name another one or differ from the
   * content remembered. Any other that was checked leaves its own content as the one remembered; one
   * that was skipped changes nothing and hands nothing on.
   */
  lemma AnswerEffect(dv: Derive, p: Phone, e: Event)
    requires AnswerOf(p, e).Some?
    ensures var a, after := AnswerOf(p, e).value, Next(dv, p, e).mem;
            && (a.route in after.changed <==>
                  || a.route in p.mem.changed
                  || (!Skipped(e, a)
                      && (Foreign(a) || (a.route in p.mem.first && p.mem.first[a.route] != KeyOf(dv, a.detail)))))
            && (!Skipped(e, a) ==>
                  a.route in after.changed || (a.route in after.first && after.first[a.route] == KeyOf(dv, a.detail)))
            && (Skipped(e, a) ==> Next(dv, p, e) == p)
  {
    CheckEffect(dv, p.mem, AnswerOf(p, e).value);
    AnswerIsChecked(dv, p, e);
  }

  lemma AnswerIsChecked(dv: Derive, p: Phone, e: Event)
    requires AnswerOf(p, e).Some?
    ensures var a := AnswerOf(p, e).value;
            && (!Skipped(e, a) ==> Next(dv, p, e).mem == CheckInRun(dv, p.mem, a.detail, a.route).0)
            && (Skipped(e, a) ==> Next(dv, p, e) == p)
  {
    hide CheckInRun, CheckDecision, VoteOn, PaymentApproval;
  }

  lemma CheckEffect(dv: Derive, mem: Memory, a: Answer)
    ensures var after := CheckInRun(dv, mem, a.detail, a.route).0;
            && (a.route in after.changed <==>
                  a.route in mem.changed || Foreign(a) || (a.route in mem.first && mem.first[a.route] != KeyOf(dv, a.detail)))
            && (a.route in after.changed || (a.route in after.first && after.first[a.route] == KeyOf(dv, a.detail)))
  {
  }

  /** An idle sheet's content: what the memory answers for a decision it has not lost. */
  lemma {:induction false} FirstContentStays(dv: Derive, events: seq<Event>, n: nat, uuid: string)
    requires n <= |events| && uuid in Run(dv, events[..n]).mem.first
    requires forall k :: n <= k < |events| ==> !events[k].Clear?
    ensures var before, after := Run(dv, events[..n]).mem, Run(dv, events).mem;
            uuid in after.first && after.first[uuid] == before.first[uuid]
    decreases |events|
  {
    if n == |events| {
      assert events[..n] == events;
    } else {
      var earlier := events[..|events| - 1];
      assert earlier[..n] == events[..n];
      assert forall k :: n <= k < |earlier| ==> earlier[k] == events[k];
      FirstContentStays(dv, earlier, n, uuid);
      NextRemembers(dv, Run(dv, earlier), events[|events| - 1]);
    }
  }

  /** Nothing is handed on for this decision from event n on. */
  ghost predicate NoMoreSigned(dv: Derive, events: seq<Event>, n: nat, uuid: string)
    requires n <= |events|
  {
    var before, after := Run(dv, events[..n]), Run(dv, events);
    && |before.handed| <= |after.handed|
    && forall k :: |before.handed| <= k < |after.handed| ==> after.handed[k].detail.uuid != uuid
  }

  /**
   * Any two answers that were checked for one decision, anywhere in a run with no clear after the
   * first: if the later one's content is not the earlier one's, nothing is handed on for it any more.
   */
  lemma DisagreeingAnswersStopSigning(dv: Derive, events: seq<Event>, i: nat, j: nat, route: string)
    requires i < j < |events| && forall k :: i <= k < |events| ==> !events[k].Clear?
    requires Checks(Run(dv, events[..i]), events[i], route) && Checks(Run(dv, events[..j]), events[j], route)
    requires KeyOf(dv, AnswerOf(Run(dv, events[..i]), events[i]).value.detail)
          != KeyOf(dv, AnswerOf(Run(dv, events[..j]), events[j]).value.detail)
    ensures NoMoreSigned(dv, events, j, route)
  {
    hide Next, KeyOf, AnswerOf, Checks;
    DisagreementIsNoticed(dv, events, i, j, route);
    NothingSignedEverAfter(dv, events, j, route);
  }

  /** One answer that was checked and names another decision is enough. */
  lemma ForeignAnswerStopsSigning(dv: Derive, events: seq<Event>, j: nat, route: string)
    requires j < |events| && forall k :: j <= k < |events| ==> !events[k].Clear?
    requires Checks(Run(dv, events[..j]), events[j], route) && Foreign(AnswerOf(Run(dv, events[..j]), events[j]).value)
    ensures NoMoreSigned(dv, events, j, route)
  {
    hide Next, KeyOf;
    AfterOne(dv, events, j);
    AnswerEffect(dv, Run(dv, events[..j]), events[j]);
    hide AnswerOf;
    NothingSignedEverAfter(dv, events, j, route);
  }

  lemma DisagreementIsNoticed(dv: Derive, events: seq<Event>, i: nat, j: nat, route: string)
    requires i < j < |events| && forall k :: i <= k < |events| ==> !events[k].Clear?
    requires Checks(Run(dv, events[..i]), events[i], route) && Checks(Run(dv, events[..j]), events[j], route)
    requires KeyOf(dv, AnswerOf(Run(dv, events[..i]), events[i]).value.detail)
          != KeyOf(dv, AnswerOf(Run(dv, events[..j]), events[j]).value.detail)
    ensures route in Run(dv, events[..j + 1]).mem.changed
  {
    hide Next, KeyOf, AnswerOf;
    var earlier := events[..j];
    AfterOne(dv, events, i);
    AfterOne(dv, events, j);
    AnswerEffect(dv, Run(dv, events[..i]), events[i]);
    AnswerEffect(dv, Run(dv, earlier), events[j]);
    assert earlier[..i + 1] == events[..i + 1];
    if route in Run(dv, events[..i + 1]).mem.changed {
      NothingSignedEverAfter(dv, earlier, i, route);
    } else {
      FirstContentStays(dv, earlier, i + 1, route);
    }
  }

  // ---------------------------------------------------------------- exactly when signing stops

  /** However the run goes on until the next clear, nothing more is handed on for this decision. */
  ghost predicate NeverSignedAgain(dv: Derive, events: seq<Event>, uuid: string) {
    forall more: seq<Event> :: (forall k :: 0 <= k < |more| ==> !more[k].Clear?) ==> NoneSignedIn(dv, events, more, uuid)
  }

  ghost predicate NoneSignedIn(dv: Derive, events: seq<Event>, more: seq<Event>, uuid: string) {
    NoMoreSigned(dv, events + more, |events|, uuid)
  }

  /** A decision with a sheet can be signed again unless, and only unless, it is lost. */
  lemma StoppedExactly(dv: Derive, events: seq<Event>, i: nat)
    requires i < |Run(dv, events).sheets|
    ensures var uuid := Run(dv, events).sheets[i].detail.uuid;
            NeverSignedAgain(dv, events, uuid) <==> uuid in Run(dv, events).mem.changed
  {
    var uuid := Run(dv, events).sheets[i].detail.uuid;
    if uuid in Run(dv, events).mem.changed {
      forall more: seq<Event> | forall k :: 0 <= k < |more| ==> !more[k].Clear?
        ensures NoneSignedIn(dv, events, more, uuid)
      {
        LostForGood(dv, events, more, uuid);
      }
    } else {
      var tap := Tap(i, false, true, OfferSign, None, [0], Identity(0, ""), Custody(false, false, None, false));
      TapAgain(dv, events, i, tap);
      assert !NoneSignedIn(dv, events, [tap], uuid);
    }
  }

  lemma LostForGood(dv: Derive, events: seq<Event>, more: seq<Event>, uuid: string)
    requires uuid in Run(dv, events).mem.changed && forall k :: 0 <= k < |more| ==> !more[k].Clear?
    ensures NoneSignedIn(dv, events, more, uuid)
  {
    var all, n := events + more, |events| - 1;
    NotJustCleared(dv, events);
    hide Run, Next;
    assert all[..n + 1] == events && all[..n] == events[..n] && all[n] == events[n];
    assert events[..n + 1] == events;
    assert forall k :: n < k < |all| ==> all[k] == more[k - |events|];
    NothingSignedEverAfter(dv, all, n, uuid);
    NothingSignedEverAfter(dv, events, n, uuid);
    HandedGrows(dv, events, more);
  }

  lemma NotJustCleared(dv: Derive, events: seq<Event>)
    requires Run(dv, events).mem.changed != {}
    ensures events != [] && !events[|events| - 1].Clear?
  {
  }

  lemma {:induction false} HandedGrows(dv: Derive, events: seq<Event>, more: seq<Event>)
    requires forall k :: 0 <= k < |more| ==> !more[k].Clear?
    ensures Run(dv, events).handed <= Run(dv, events + more).handed
  {
    hide Next;
    if more == [] {
      assert events + more == events;
    } else {
      var all, before := events + more, more[..|more| - 1];
      assert all[..|all| - 1] == events + before;
      HandedGrows(dv, events, before);
      OneMoreHanded(dv, Run(dv, events + before), more[|more| - 1]);
    }
  }

  lemma OneMoreHanded(dv: Derive, p: Phone, e: Event)
    requires !e.Clear?
    ensures p.handed <= Next(dv, p, e).handed
  {
    hide CheckInRun, VoteOn, OpenSheet, BeginConfirm;
  }

  /** A tap on a sheet of a decision that is not lost, with nothing newer fetched, hands it on. */
  lemma TapAgain(dv: Derive, events: seq<Event>, i: nat, tap: Event)
    requires var p := Run(dv, events);
             i < |p.sheets| && p.sheets[i].detail.uuid !in p.mem.changed
    requires tap.Tap? && tap.sheet == i && !tap.inFlight && tap.open && tap.offer == OfferSign && tap.live == None
             && 0 < |tap.reason| <= 255
    ensures !NoMoreSigned(dv, events + [tap], |events|, Run(dv, events).sheets[i].detail.uuid)
  {
    RunIsSound(dv, events);
    var p, all := Run(dv, events), events + [tap];
    assert all[..|events|] == events && all[..|all| - 1] == events;
    assert Genuine(dv, p.mem, p.sheets[i]);
    hide CheckDecision, VoteOn;
    assert Next(dv, p, tap).handed[|p.handed|].detail == p.sheets[i].detail;
  }

  /**
   * For an answer that names another decision, met with a sheet of that decision there: signing is over
   * for it, however the run goes on, exactly if the answer was checked or the decision was lost before.
   */
  lemma ForeignAnswerExactly(dv: Derive, events: seq<Event>, j: nat, i: nat)
    requires j < |events|
    requires var p := Run(dv, events[..j]); var answer := AnswerOf(p, events[j]);
             && answer.Some? && Foreign(answer.value)
             && i < |p.sheets| && p.sheets[i].detail.uuid == answer.value.route
    ensures var p := Run(dv, events[..j]);
            var a := AnswerOf(p, events[j]).value;
            NeverSignedAgain(dv, events[..j + 1], a.route) <==> !Skipped(events[j], a) || a.route in p.mem.changed
  {
    hide Next, KeyOf, NeverSignedAgain;
    var p := Run(dv, events[..j]);
    AfterOne(dv, events, j);
    AnswerEffect(dv, p, events[j]);
    SheetsStay(dv, p, events[j], i);
    StoppedExactly(dv, events[..j + 1], i);
  }

  lemma SheetsStay(dv: Derive, p: Phone, e: Event, i: nat)
    requires i < |p.sheets| && !e.Clear?
    ensures var p' := Next(dv, p, e); i < |p'.sheets| && p'.sheets[i] == p.sheets[i]
  {
    hide CheckInRun, VoteOn, BeginConfirm;
  }

  /**
   * An answer naming another decision after which signing goes on: a sheet is opened, tapped over the
   * other decision's page, opened again and tapped over its own.
   */
  lemma ForeignAnswerForgotten(dv: Derive, d: Detail, other: Detail, me: Identity, custody: Custody)
    requires CheckDecision(dv, d).Passed? && d.inputs.proposalId == d.uuid && other.uuid != d.uuid
    ensures var open := Open(d, d.uuid, Reject, OfferSign, "");
            var over := Tap(0, false, true, OfferSign, Some(other), [0], me, custody);
            var again := Tap(1, false, true, OfferSign, Some(d), [0], me, custody);
            var p := Run(dv, [open, over, open, again]);
            d.uuid !in p.mem.changed && |p.handed| == 1 && p.handed[0].detail == d
  {
    var open := Open(d, d.uuid, Reject, OfferSign, "");
    var over := Tap(0, false, true, OfferSign, Some(other), [0], me, custody);
    var again := Tap(1, false, true, OfferSign, Some(d), [0], me, custody);
    hide CheckDecision, VoteOn;
    var hash := CheckDecision(dv, d).hash;
    var mem, snap := Memory(map[d.uuid := Key(hash, d.inputs)], {}), Snapshot(Reject, d, hash, Key(hash, d.inputs));
    assert Next(dv, NEW_PHONE, open) == Phone(mem, [snap], []);
    assert Next(dv, Phone(mem, [snap], []), over) == Phone(mem, [snap], []);
    assert Next(dv, Phone(mem, [snap], []), open) == Phone(mem, [snap, snap], []);
    RunOfFour(dv, open, over, open, again);
  }

  lemma RunOfFour(dv: Derive, a: Event, b: Event, c: Event, d: Event)
    ensures Run(dv, [a, b, c, d]) == Next(dv, Next(dv, Next(dv, Next(dv, NEW_PHONE, a), b), c), d)
  {
    hide Next;
    var one, two, three := [a], [a, b], [a, b, c];
    assert [a, b, c, d][..3] == three && three[..2] == two && two[..1] == one && one[..0] == [];
    assert Run(dv, one) == Next(dv, NEW_PHONE, a);
    assert Run(dv, two) == Next(dv, Run(dv, one), b);
    assert Run(dv, three) == Next(dv, Run(dv, two), c);
  }

  lemma AfterOne(dv: Derive, events: seq<Event>, i: nat)
    requires i < |events|
    ensures Run(dv, events[..i + 1]) == Next(dv, Run(dv, events[..i]), events[i])
  {
    assert events[..i + 1][..i] == events[..i];
  }

  /** `closesIdleSheet` */
  predicate ClosesIdleSheet(open: bool, busy: bool, snap: Option<Snapshot>, checked: Option<Checked>) {
    && open && !busy && snap.Some? && checked.Some?
    && (checked.value.Failed? || checked.value.hash != snap.value.hash)
  }

  /**
   * An open, idle sheet survives a fetch exactly when the fetch passed and carried the sheet's own
   * signed inputs; and then its decision is not lost. (The code compares the hash alone.)
   */
  lemma IdleSheetStaysExactly(dv: Derive, p: Phone, i: nat, d: Detail)
    requires Sound(dv, p) && i < |p.sheets|
    ensures var snap := p.sheets[i];
            var (mem, checked) := CheckInRun(dv, p.mem, d, snap.detail.uuid);
            && (!ClosesIdleSheet(true, false, Some(snap), Some(checked))
                <==> checked.Passed? && d.inputs == snap.detail.inputs)
            && (checked.Passed? ==> snap.detail.uuid !in mem.changed)
  {
    var snap := p.sheets[i];
    assert Genuine(dv, p.mem, snap);
  }
}
