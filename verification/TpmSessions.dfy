/**
 The session layer of trusted_hash_kmod/cmd.c: a table of sessions that own
 transient objects inside a TPM, changed by four ioctls with many early exits.
 What the chip, the allocator and the user copies do is an arbitrary input; the
 chip itself is the set of handles it currently holds and the list of commands it
 has carried out.
 */
module TpmSessions {

  const ENOENT: int := -2
  const EIO: int := -5
  const EACCES: int := -13
  const ENODEV: int := -19
  const EINVAL: int := -22

  /** The handle ranges of TPM 2.0: 0x80 in the top byte for transient objects, 0x03 for policy sessions. */
  predicate IsTransient(h: int) {
    HasTop(h, 0x80)
  }

  predicate IsPolicySession(h: int) {
    HasTop(h, 0x03)
  }

  predicate HasTop(h: int, top: int) {
    0x100_0000 * top <= h < 0x100_0000 * (top + 1)
  }

  /** How far the module gets with the reply that announces a new handle. */
  datatype Stage =
    | HandleUnread
    | SizesRejected
    | BodyRejected
    | Complete

  datatype Answer = Answer(handle: int, stage: Stage)

  /** How many of the first n flushes of a held handle fail. */
  ghost function FailedBefore(flushes: nat -> bool, n: nat): nat {
    if n == 0 then 0 else FailedBefore(flushes, n - 1) + if flushes(n - 1) then 0 else 1
  }

  /** How many of the first n new handles cannot be read from their reply. */
  ghost function UnreadBefore(answers: nat -> Answer, n: nat): nat {
    if n == 0 then 0 else UnreadBefore(answers, n - 1) + if answers(n - 1).stage.HandleUnread? then 1 else 0
  }

  lemma FailedNext(flushes: nat -> bool, n: nat)
    ensures FailedBefore(flushes, n + 1) == FailedBefore(flushes, n) + if flushes(n) then 0 else 1
  {
  }

  lemma UnreadNext(answers: nat -> Answer, n: nat)
    ensures UnreadBefore(answers, n + 1) == UnreadBefore(answers, n) + if answers(n).stage.HandleUnread? then 1 else 0
  {
  }

  lemma {:induction false} NeverFails(flushes: nat -> bool, n: nat)
    requires forall k :: flushes(k)
    ensures FailedBefore(flushes, n) == 0
  {
    if n > 0 {
      NeverFails(flushes, n - 1);
    }
  }

  lemma {:induction false} AlwaysRead(answers: nat -> Answer, n: nat)
    requires forall k :: !answers(k).stage.HandleUnread?
    ensures UnreadBefore(answers, n) == 0
  {
    if n > 0 {
      AlwaysRead(answers, n - 1);
    }
  }

  /** From the n-th on, all succeed. */
  ghost predicate Always(outcomes: nat -> bool, n: nat) {
    forall i :: i >= n ==> outcomes(i)
  }

  lemma AlwaysNext(outcomes: nat -> bool, n: nat)
    requires Always(outcomes, n)
    ensures outcomes(n) && Always(outcomes, n + 1)
  {
  }

  /** From the n-th on, every reply with a new handle is well formed and its handle, of the right kind, has not been
      used yet. */
  ghost predicate Supplies(answers: nat -> Answer, n: nat, held: set<int>, top: int) {
    && (forall i :: i >= n ==>
          answers(i).stage.Complete? && answers(i).handle !in held && HasTop(answers(i).handle, top))
    && forall i, j :: n <= i < j ==> answers(i).handle != answers(j).handle
  }

  lemma SuppliesNext(answers: nat -> Answer, n: nat, held: set<int>, top: int)
    requires Supplies(answers, n, held, top)
    ensures answers(n).stage.Complete? && answers(n).handle !in held && HasTop(answers(n).handle, top)
    ensures Supplies(answers, n + 1, held + {answers(n).handle}, top)
  {
  }

  lemma SuppliesOnly(answers: nat -> Answer, n: nat, held: set<int>, fewer: set<int>, top: int)
    requires Supplies(answers, n, held, top) && fewer <= held
    ensures Supplies(answers, n, fewer, top)
  {
  }

  /** What the chip was told to do, other than flushing. */
  datatype Command =
    | CreatePrimary(handle: int)
    | CreateKey(parent: int)
    | Load(parent: int, handle: int)
    | CertifyCreation(signer: int, object: int)
    | Sign
    | StartPolicy(policy: int)
    | PolicySecret(policy: int)
    | PolicyPcr(policy: int)
    | PolicyAuthValue(policy: int)
    | ActivateCredential(object: int, policy: int)
    | RsaDecrypt(object: int, policy: int)

  /** The inputs that decide what the chip does. */
  datatype Fate = Fate(flushes: nat -> bool, objects: nat -> Answer, policies: nat -> Answer, replies: nat -> bool)

  /** The chip. */
  class Tpm {
    const fate: Fate
    var flushed: nat
    var madeObjects: nat
    var madePolicies: nat
    var replied: nat
    var objects: set<int>
    var policies: set<int>
    ghost var log: seq<Command>
    /** What the chip still holds although the module gave it up: the last flush failed or could not be sent, or the
        handle could not be read from the reply that announced it. */
    ghost var lost: set<int>

    constructor (fate: Fate)
      ensures Sane() && objects == {} && policies == {} && Faults() == 0 && log == []
      ensures this.fate == fate && flushed == madeObjects == madePolicies == replied == 0
    {
      this.fate := fate;
      flushed, madeObjects, madePolicies, replied := 0, 0, 0, 0;
      objects := {};
      policies := {};
      log := [];
      lost := {};
    }

    /** From now on every flush works, every command is accepted, and every new handle is fresh and readable. */
    ghost predicate Generous()
      reads this
    {
      && Always(fate.flushes, flushed) && Always(fate.replies, replied)
      && Supplies(fate.objects, madeObjects, objects, 0x80) && Supplies(fate.policies, madePolicies, policies, 0x03)
    }

    /** How often the chip has kept a handle that the module wanted to be rid of, or hidden a new one. */
    ghost function Faults(): nat
      reads this
    {
      FailedBefore(fate.flushes, flushed) + UnreadBefore(fate.objects, madeObjects)
      + UnreadBefore(fate.policies, madePolicies)
    }

    /** Only a fault makes a handle lost. */
    twostate predicate Careful()
      reads this
    {
      Faults() >= old(Faults()) && (Faults() == old(Faults()) ==> lost <= old(lost))
    }

    ghost predicate Sane()
      reads this
    {
      && lost <= objects + policies
      && (forall h :: h in objects ==> IsTransient(h))
      && (forall h :: h in policies ==> IsPolicySession(h))
    }

    /** What the chip holds and the module has not given up. */
    ghost function Kept(): set<int>
      reads this
    {
      objects + policies - lost
    }

    /** A handle that is flushed again counts as lost no longer once a flush succeeds. */
    method Flush(h: int) returns (rc: int)
      requires Sane()
      modifies this
      ensures Sane() && Kept() == old(Kept()) - {h} && log == old(log)
      ensures rc == 0 ==> objects == old(objects) - {h} && policies == old(policies) - {h} && lost == old(lost) - {h}
      ensures rc != 0 ==> objects == old(objects) && policies == old(policies)
      ensures rc != 0 ==> lost == old(lost) + {h} * (objects + policies)
      ensures Faults() == old(Faults()) + (if rc != 0 && h in objects + policies then 1 else 0)
      ensures old(Generous()) ==> Generous() && (h in old(objects) + old(policies) ==> rc == 0)
    {
      hide FailedBefore, UnreadBefore, Always, Supplies, HasTop;
      FailedNext(fate.flushes, flushed);
      if Generous() {
        AlwaysNext(fate.flushes, flushed);
        SuppliesOnly(fate.objects, madeObjects, objects, objects - {h}, 0x80);
        SuppliesOnly(fate.policies, madePolicies, policies, policies - {h}, 0x03);
      }
      var ok: bool := *;
      if h in objects || h in policies {
        ok := fate.flushes(flushed);
        flushed := flushed + 1;
      }
      if ok {
        objects := objects - {h};
        policies := policies - {h};
        lost := lost - {h};
        return 0;
      }
      lost := lost + {h} * (objects + policies);
      return EIO;
    }

    method NextReply() returns (ok: bool)
      modifies this`replied
      ensures old(Generous()) ==> ok && Generous()
    {
      hide Always, Supplies;
      if Generous() {
        AlwaysNext(fate.replies, replied);
      }
      ok := fate.replies(replied);
      replied := replied + 1;
    }

    /** TPM2_CreatePrimary, and TPM2_Load under a parent: handle is what the caller's variable holds afterwards, 0 for
        nothing. */
    method MakeObject(ghost parent: int) returns (rc: int, handle: int)
      requires Sane()
      modifies this
      ensures Sane() && policies == old(policies) && Careful()
      ensures rc == 0 ==> handle != 0 && log == old(log) + [Making(parent, handle)]
      ensures handle != 0 ==>
                && IsTransient(handle) && handle !in old(objects)
                && objects == old(objects) + {handle} && lost == old(lost) && Faults() == old(Faults())
      ensures handle == 0 ==> old(objects) <= objects && objects - old(objects) == lost - old(lost) && old(lost) <= lost
      ensures Kept() == old(Kept()) + ({handle} - {0})
      ensures SameTally(old(log), log)
      ensures old(Generous()) ==> Generous() && rc == 0
    {
      hide FailedBefore, UnreadBefore, Always, Supplies, Decryptions, Activations;
      handle := 0;
      rc := EIO;
      var accepted := NextReply();
      UnreadNext(fate.objects, madeObjects);
      if Generous() {
        SuppliesNext(fate.objects, madeObjects, objects, 0x80);
      }
      var answer := fate.objects(madeObjects);
      var h := answer.handle;
      if !accepted || !IsTransient(h) || h in objects || h in policies {
        return;
      }
      madeObjects := madeObjects + 1;
      objects := objects + {h};
      Tallied(log, Making(parent, h));
      log := log + [Making(parent, h)];
      match answer.stage
      case HandleUnread =>
        lost := lost + {h};
      case SizesRejected =>
        handle := h;
      case BodyRejected =>
        var _ := Flush(h);
      case Complete =>
        handle := h;
        rc := 0;
    }

    method StartPolicySession() returns (rc: int, handle: int)
      requires Sane()
      modifies this
      ensures Sane() && objects == old(objects) && Careful()
      ensures rc == 0 <==> handle != 0
      ensures handle != 0 ==>
                && IsPolicySession(handle) && handle !in old(policies) && log == old(log) + [StartPolicy(handle)]
                && policies == old(policies) + {handle} && lost == old(lost) && Faults() == old(Faults())
      ensures handle == 0 ==>
                old(policies) <= policies && policies - old(policies) == lost - old(lost) && old(lost) <= lost
      ensures Kept() == old(Kept()) + ({handle} - {0})
      ensures SameTally(old(log), log)
      ensures old(Generous()) ==> Generous() && rc == 0
    {
      hide FailedBefore, UnreadBefore, Always, Supplies, Decryptions, Activations;
      handle := 0;
      rc := EIO;
      var accepted := NextReply();
      UnreadNext(fate.policies, madePolicies);
      if Generous() {
        SuppliesNext(fate.policies, madePolicies, policies, 0x03);
      }
      var answer := fate.policies(madePolicies);
      var h := answer.handle;
      if !accepted || !IsPolicySession(h) || h in objects || h in policies {
        return;
      }
      madePolicies := madePolicies + 1;
      policies := policies + {h};
      Tallied(log, StartPolicy(h));
      log := log + [StartPolicy(h)];
      match answer.stage
      case HandleUnread =>
        lost := lost + {h};
      case BodyRejected =>
        var _ := Flush(h);
      case _ =>
        handle := h;
        rc := 0;
    }

    /** A command that neither makes nor ends a handle. One that fails may have been carried out all the same. */
    method Send(ghost c: Command) returns (rc: int)
      requires !IsUse(c)
      modifies this`replied, this`log
      ensures log == old(log) + [c] || (rc != 0 && log == old(log))
      ensures SameTally(old(log), log)
      ensures old(Generous()) ==> Generous() && rc == 0
    {
      hide Always, Supplies, Decryptions, Activations, HasTop;
      var ok := NextReply();
      rc := if ok then 0 else EIO;
      var performed: bool := *;
      if ok || performed {
        Tallied(log, c);
        log := log + [c];
      }
    }

    /** A command authorised by a policy session that is not to be continued: the TPM closes it on success,
        even when the reply is then found malformed. */
    method UsePolicySession(h: int, ghost c: Command) returns (rc: int, performed: bool)
      requires Sane() && h in policies && h !in lost && IsUse(c)
      modifies this`policies, this`replied, this`log
      ensures Sane() && (rc == 0 ==> performed)
      ensures policies == if performed then old(policies) - {h} else old(policies)
      ensures log == if performed then old(log) + [c] else old(log)
      ensures !performed ==> SameTally(old(log), log)
      ensures performed ==> OneMore(old(log), log, c)
      ensures old(Generous()) ==> Generous() && rc == 0
    {
      hide Always, Supplies, Decryptions, Activations, HasTop;
      var ok := NextReply();
      if Generous() {
        SuppliesOnly(fate.policies, madePolicies, policies, policies - {h}, 0x03);
      }
      rc := if ok then 0 else EIO;
      performed := *;
      if ok {
        performed := true;
      }
      if performed {
        policies := policies - {h};
        Tallied(log, c);
        log := log + [c];
      }
    }
  }

  function Making(parent: int, handle: int): Command {
    if parent == 0 then CreatePrimary(handle) else Load(parent, handle)
  }

  /** The two commands that use the key of a session. */
  predicate IsUse(c: Command) {
    c.ActivateCredential? || c.RsaDecrypt?
  }

  ghost function Decryptions(log: seq<Command>): nat
    decreases |log|
  {
    if log == [] then 0 else Decryptions(log[..|log| - 1]) + if log[|log| - 1].RsaDecrypt? then 1 else 0
  }

  ghost function Activations(log: seq<Command>): nat
    decreases |log|
  {
    if log == [] then 0 else Activations(log[..|log| - 1]) + if log[|log| - 1].ActivateCredential? then 1 else 0
  }

  ghost predicate SameTally(was: seq<Command>, log: seq<Command>) {
    Decryptions(log) == Decryptions(was) && Activations(log) == Activations(was)
  }

  ghost predicate OneMore(was: seq<Command>, log: seq<Command>, c: Command) {
    && Decryptions(log) == Decryptions(was) + (if c.RsaDecrypt? then 1 else 0)
    && Activations(log) == Activations(was) + (if c.ActivateCredential? then 1 else 0)
  }

  lemma Tallied(log: seq<Command>, c: Command)
    ensures OneMore(log, log + [c], c) && (!IsUse(c) ==> SameTally(log, log + [c]))
  {
    assert (log + [c])[..|log|] == log;
  }

  class Session {
    var srk: int
    var ak: int
    var decryptKey: int
    var activated: bool
    ghost const serial: nat

    constructor (ghost serial: nat)
      ensures srk == 0 && ak == 0 && decryptKey == 0 && !activated && this.serial == serial
    {
      srk, ak, decryptKey := 0, 0, 0;
      activated := false;
      this.serial := serial;
    }

    /** The handles this session refers to. */
    ghost function Handles(): set<int>
      reads this
    {
      {srk, ak, decryptKey} - {0}
    }
  }

  /** What the key of a session was used for, in order. */
  datatype Use = Activated(serial: nat) | Decrypted(serial: nat)

  /** A session decrypts at most once, and only after its credential was activated. */
  ghost predicate UsesKept(uses: seq<Use>) {
    forall k :: 0 <= k < |uses| && uses[k].Decrypted? ==>
      && Activated(uses[k].serial) in uses[..k]
      && Decrypted(uses[k].serial) !in uses[..k]
  }

  ghost function UsedToDecrypt(uses: seq<Use>): nat
    decreases |uses|
  {
    if uses == [] then 0 else UsedToDecrypt(uses[..|uses| - 1]) + if uses[|uses| - 1].Decrypted? then 1 else 0
  }

  ghost function UsedToActivate(uses: seq<Use>): nat
    decreases |uses|
  {
    if uses == [] then 0 else UsedToActivate(uses[..|uses| - 1]) + if uses[|uses| - 1].Activated? then 1 else 0
  }

  /** Every decryption by the chip is on record, and no activation that the chip did not carry out. */
  ghost predicate Recorded(uses: seq<Use>, log: seq<Command>) {
    UsedToDecrypt(uses) == Decryptions(log) && UsedToActivate(uses) <= Activations(log)
  }

  lemma UseAppended(uses: seq<Use>, u: Use)
    ensures UsedToDecrypt(uses + [u]) == UsedToDecrypt(uses) + if u.Decrypted? then 1 else 0
    ensures UsedToActivate(uses + [u]) == UsedToActivate(uses) + if u.Activated? then 1 else 0
  {
    assert (uses + [u])[..|uses|] == uses;
  }

  lemma UsesActivate(uses: seq<Use>, n: nat)
    requires UsesKept(uses)
    ensures UsesKept(uses + [Activated(n)])
    ensures UsedToDecrypt(uses + [Activated(n)]) == UsedToDecrypt(uses)
    ensures UsedToActivate(uses + [Activated(n)]) == UsedToActivate(uses) + 1
  {
    UseAppended(uses, Activated(n));
    var more := uses + [Activated(n)];
    forall k | 0 <= k < |more| && more[k].Decrypted?
      ensures Activated(more[k].serial) in more[..k] && Decrypted(more[k].serial) !in more[..k]
    {
      assert more[..k] == uses[..k] && more[k] == uses[k];
    }
  }

  lemma UsesDecrypt(uses: seq<Use>, n: nat)
    requires UsesKept(uses) && Activated(n) in uses && Decrypted(n) !in uses
    ensures UsesKept(uses + [Decrypted(n)])
    ensures UsedToDecrypt(uses + [Decrypted(n)]) == UsedToDecrypt(uses) + 1
    ensures UsedToActivate(uses + [Decrypted(n)]) == UsedToActivate(uses)
  {
    UseAppended(uses, Decrypted(n));
    var more := uses + [Decrypted(n)];
    forall k | 0 <= k < |more| && more[k].Decrypted?
      ensures Activated(more[k].serial) in more[..k] && Decrypted(more[k].serial) !in more[..k]
    {
      assert more[..k] == uses[..k];
    }
  }

  ghost function SerialsDecrypted(uses: seq<Use>): set<nat> {
    set k | 0 <= k < |uses| && uses[k].Decrypted? :: uses[k].serial
  }

  ghost function SerialsActivated(uses: seq<Use>): set<nat> {
    set k | 0 <= k < |uses| && uses[k].Activated? :: uses[k].serial
  }

  lemma {:induction false} SerialsCounted(uses: seq<Use>)
    requires UsesKept(uses)
    ensures |SerialsDecrypted(uses)| == UsedToDecrypt(uses) && |SerialsActivated(uses)| <= UsedToActivate(uses)
    decreases |uses|
  {
    hide UsesKept;
    if uses != [] {
      var rest, u := uses[..|uses| - 1], uses[|uses| - 1];
      UsesShorter(uses);
      SerialsCounted(rest);
      LastSerial(uses);
      if u.Decrypted? {
        SerialIsNew(uses);
      }
      hide SerialsDecrypted, SerialsActivated;
      assert |SerialsDecrypted(rest) + {u.serial}| <= |SerialsDecrypted(rest)| + 1;
    }
  }

  lemma LastSerial(uses: seq<Use>)
    requires uses != []
    ensures var rest, u := uses[..|uses| - 1], uses[|uses| - 1];
            && SerialsDecrypted(uses) == SerialsDecrypted(rest) + (if u.Decrypted? then {u.serial} else {})
            && SerialsActivated(uses) == SerialsActivated(rest) + (if u.Activated? then {u.serial} else {})
  {
    var rest, u := uses[..|uses| - 1], uses[|uses| - 1];
    assert uses == rest + [u];
  }

  lemma SerialIsNew(uses: seq<Use>)
    requires UsesKept(uses) && uses != [] && uses[|uses| - 1].Decrypted?
    ensures uses[|uses| - 1].serial !in SerialsDecrypted(uses[..|uses| - 1])
  {
  }

  lemma UsesShorter(uses: seq<Use>)
    requires UsesKept(uses) && uses != []
    ensures UsesKept(uses[..|uses| - 1])
  {
    var rest := uses[..|uses| - 1];
    forall k | 0 <= k < |rest| && rest[k].Decrypted?
      ensures Activated(rest[k].serial) in rest[..k] && Decrypted(rest[k].serial) !in rest[..k]
    {
      assert rest[..k] == uses[..k] && rest[k] == uses[k];
    }
  }

  /** There are no more decryptions than activations. */
  lemma ActivatedFirst(uses: seq<Use>)
    requires UsesKept(uses)
    ensures UsedToDecrypt(uses) <= UsedToActivate(uses)
  {
    SerialsCounted(uses);
    assert SerialsDecrypted(uses) <= SerialsActivated(uses);
    Contained(SerialsDecrypted(uses), SerialsActivated(uses));
  }

  lemma Contained(a: set<nat>, b: set<nat>)
    requires a <= b
    ensures |a| <= |b|
  {
    assert b == a + (b - a);
  }

  datatype Call =
    | Create(maskFits: bool, chip: bool)
    | Activate(id: nat, sizesFit: bool, chip: bool)
    | Hash(id: nat, sizeFits: bool, chip: bool)
    | Cancel(id: nat, chip: bool)

  /** The commands that set up a session: SRK, AK and decryption key, the certificate of the key, the signature. */
  function SetUp(srk: int, ak: int, key: int): seq<Command> {
    [CreatePrimary(srk)] + AkSetUp(srk, ak, key)
  }

  function AkSetUp(srk: int, ak: int, key: int): seq<Command> {
    [CreateKey(srk), Load(srk, ak)] + LastKey(srk, ak, key)
  }

  function LastKey(srk: int, ak: int, key: int): seq<Command> {
    [CreateKey(srk), Load(srk, key), CertifyCreation(ak, key), Sign]
  }

  /** Those that activate a credential under an endorsement policy. */
  function Activation(ak: int, policy: int): seq<Command> {
    [StartPolicy(policy), PolicySecret(policy), ActivateCredential(ak, policy)]
  }

  /** Those that decrypt under a policy on PCRs and key authorisation. */
  function Decryption(srk: int, key: int, policy: int): seq<Command> {
    [CreatePrimary(srk), Load(srk, key)] + UnderPolicy(key, policy)
  }

  function UnderPolicy(key: int, policy: int): seq<Command> {
    [StartPolicy(policy), PolicyPcr(policy), PolicyAuthValue(policy), RsaDecrypt(key, policy)]
  }

  class Module {
    const tpm: Tpm
    /** Memory, user copies and random numbers never fail. */
    const reliable: bool
    var sessions: map<nat, Session>
    ghost var uses: seq<Use>
    ghost var created: nat

    constructor (fate: Fate, reliable: bool)
      ensures Valid() && fresh(tpm) && sessions == map[] && tpm.lost == {} && tpm.Faults() == 0
      ensures tpm.fate == fate && this.reliable == reliable && tpm.log == [] && uses == [] && created == 0
      ensures tpm.flushed == tpm.madeObjects == tpm.madePolicies == tpm.replied == 0
      ensures tpm.objects == tpm.policies == {}
    {
      tpm := new Tpm(fate);
      this.reliable := reliable;
      sessions := map[];
      uses := [];
      created := 0;
    }

    /** Nothing will fail from now on. */
    ghost predicate Generous()
      reads this, tpm
    {
      reliable && tpm.Generous()
    }

    /** At most one session; it owns a loaded AK and nothing else. That AK is all the chip holds, apart from what was
        lost. */
    ghost predicate Valid()
      reads this, tpm, sessions.Values
    {
      && (forall i :: i in sessions ==> i == 1)
      && (forall i :: i in sessions ==> Settled(sessions[i]))
      && tpm.Sane() && tpm.Kept() == Owned()
      && UsesKept(uses) && Recorded(uses, tpm.log)
      && (forall k :: 0 <= k < |uses| ==> uses[k].serial < created)
    }

    ghost predicate Settled(sess: Session)
      reads this, tpm, sess
    {
      && sess.srk == 0 && sess.decryptKey == 0 && IsTransient(sess.ak) && sess.ak in tpm.objects
      && Tracked(sess)
    }

    ghost predicate Tracked(sess: Session)
      reads this, sess
    {
      && sess.serial < created
      && Decrypted(sess.serial) !in uses
      && (sess.activated <==> Activated(sess.serial) in uses)
    }

    /** The transient objects that belong to sessions in the table. */
    ghost function Owned(): set<int>
      reads this, sessions.Values
    {
      set i | i in sessions :: sessions[i].ak
    }

    lemma AtMostOne()
      requires Valid()
      ensures |sessions| <= 1 && |Owned()| <= 1
    {
      if 1 in sessions {
        assert sessions.Keys == {1} && Owned() == {sessions[1].ak};
        assert |sessions| == |sessions.Keys|;
      } else {
        assert sessions == map[];
      }
    }

    lemma NothingElse()
      requires Valid()
      ensures tpm.lost == {} ==> tpm.objects == Owned() && tpm.policies == {}
    {
      if tpm.lost == {} {
        assert tpm.objects + tpm.policies == Owned();
      }
    }

    /** Flushes and forgets whatever the session refers to. A failed flush is only logged. */
    method FlushSessionHandles(sess: Session)
      requires tpm.Sane()
      modifies tpm, sess
      ensures sess.Handles() == {} && sess.activated == old(sess.activated)
      ensures old(tpm.objects) - old(sess.Handles()) <= tpm.objects <= old(tpm.objects)
      ensures tpm.Sane() && tpm.Kept() == old(tpm.Kept()) - old(sess.Handles())
      ensures tpm.lost <= old(tpm.lost) + old(sess.Handles()) && tpm.Faults() >= old(tpm.Faults())
      ensures tpm.Faults() == old(tpm.Faults()) ==>
                tpm.objects == old(tpm.objects) - old(sess.Handles()) && tpm.lost == old(tpm.lost) - old(sess.Handles())
      ensures tpm.log == old(tpm.log) && (old(Generous()) ==> Generous())
    {
      hide FailedBefore, UnreadBefore;
      ghost var key, ak, srk := sess.decryptKey, sess.ak, sess.srk;
      FlushLogged(sess.decryptKey);
      sess.decryptKey := 0;
      FlushLogged(sess.ak);
      sess.ak := 0;
      FlushLogged(sess.srk);
      sess.srk := 0;
      assert old(sess.Handles()) == {key, ak, srk} - {0};
    }

    /** Nothing for no handle; otherwise a flush whose failure is only logged. */
    method FlushLogged(h: int)
      requires tpm.Sane()
      modifies tpm
      ensures tpm.Sane() && tpm.Kept() == old(tpm.Kept()) - {h}
      ensures old(tpm.objects) - {h} <= tpm.objects <= old(tpm.objects)
      ensures tpm.lost <= old(tpm.lost) + {h} && tpm.Faults() >= old(tpm.Faults())
      ensures tpm.Faults() == old(tpm.Faults()) ==>
                tpm.objects == old(tpm.objects) - {h} && tpm.lost == old(tpm.lost) - {h}
      ensures tpm.log == old(tpm.log) && (old(Generous()) ==> Generous())
    {
      if h != 0 {
        var rc := tpm.Flush(h);
      }
    }

    /** chip tells whether the TPM could be opened; without it the handles stay loaded with nobody to flush them. */
    method DestroySession(chip: bool, sess: Session)
      requires tpm.Sane()
      modifies tpm, sess
      ensures old(tpm.objects) - old(sess.Handles()) <= tpm.objects <= old(tpm.objects)
      ensures !chip ==> tpm.objects == old(tpm.objects)
      ensures tpm.Sane() && tpm.Kept() == old(tpm.Kept()) - old(sess.Handles())
      ensures tpm.lost <= old(tpm.lost) + old(sess.Handles()) && tpm.Faults() >= old(tpm.Faults())
      ensures chip && tpm.Faults() == old(tpm.Faults()) ==>
                tpm.objects == old(tpm.objects) - old(sess.Handles()) && tpm.lost == old(tpm.lost) - old(sess.Handles())
      ensures tpm.log == old(tpm.log) && (old(Generous()) ==> Generous())
    {
      if chip {
        FlushSessionHandles(sess);
      } else {
        tpm.lost := tpm.lost + sess.Handles() * (tpm.objects + tpm.policies);
      }
    }

    method CleanupSessions(chip: bool)
      requires Valid()
      modifies this`sessions, tpm, sessions.Values
      ensures Valid() && sessions == map[]
      ensures tpm.lost <= old(tpm.lost) + old(Owned()) && tpm.Faults() >= old(tpm.Faults())
      ensures chip && tpm.Faults() == old(tpm.Faults()) ==>
                tpm.objects == old(tpm.objects) - old(Owned()) && tpm.lost <= old(tpm.lost)
      ensures tpm.log == old(tpm.log) && (old(Generous()) ==> Generous())
    {
      if 1 in sessions {
        var sess := sessions[1];
        sessions := sessions - {1};
        assert sessions == map[];
        DestroySession(chip, sess);
      }
      assert sessions == map[];
    }

    /** Everything a call can fail on outside the chip. */
    method Attempt() returns (rc: int)
      ensures reliable ==> rc == 0
    {
      rc := *;
      if reliable {
        rc := 0;
      }
    }

    /** xa_alloc: the lowest free id from 1 up, or no memory for the entry. */
    method AllocateId() returns (rc: int, id: nat)
      ensures rc == 0 ==> id >= 1 && id !in sessions && forall j :: 1 <= j < id ==> j in sessions
      ensures reliable ==> rc == 0
    {
      rc := Attempt();
      id := 1;
      if rc == 0 {
        ghost var unseen := sessions.Keys;
        while id in sessions
          invariant id >= 1 && forall j :: 1 <= j < id ==> j in sessions
          invariant forall j :: j in sessions && j >= id ==> j in unseen
          decreases |unseen|
        {
          unseen := unseen - {id};
          id := id + 1;
        }
      }
    }

    /** The persistent module signer signs while, besides what the chip held before the session, only the AK is
        loaded. */
    method SignTranscript(ghost before: set<int>, sess: Session) returns (rc: int)
      requires sess.Handles() == {sess.ak} && tpm.objects == before + {sess.ak}
      modifies tpm`replied, tpm`log
      ensures rc == 0 ==> tpm.log == old(tpm.log) + [Sign]
      ensures SameTally(old(tpm.log), tpm.log)
      ensures old(Generous()) ==> Generous() && rc == 0
    {
      rc := Attempt();
      if rc == 0 {
        rc := tpm.Send(Sign);
      }
    }

    /** Loads the keys of a new session and keeps only the AK. On failure the session still refers to whatever
        it had loaded. */
    method LoadKeys(sess: Session) returns (rc: int)
      requires tpm.Sane() && sess.Handles() == {}
      modifies tpm, sess
      ensures sess.activated == old(sess.activated)
      ensures tpm.Sane() && tpm.Kept() - sess.Handles() == old(tpm.Kept()) && tpm.policies == old(tpm.policies)
      ensures sess.Handles() !! old(tpm.objects) && forall h :: h in sess.Handles() ==> IsTransient(h)
      ensures tpm.Careful()
      ensures rc == 0 ==> tpm.Kept() == old(tpm.Kept()) + {sess.ak}
      ensures rc == 0 ==> tpm.objects == old(tpm.objects) + {sess.ak} && tpm.lost == old(tpm.lost)
      ensures rc == 0 ==> sess.srk == 0 && sess.decryptKey == 0 && sess.ak != 0 && sess.ak in tpm.objects
      ensures rc == 0 ==> exists srk, key :: tpm.log == old(tpm.log) + SetUp(srk, sess.ak, key)
      ensures SameTally(old(tpm.log), tpm.log)
      ensures old(Generous()) ==> Generous() && rc == 0
    {
      hide Tpm.Generous, FailedBefore, UnreadBefore, Decryptions, Activations;
      ghost var others := tpm.Kept();
      assert sess.decryptKey !in sess.Handles() && sess.ak !in sess.Handles();
      rc := Attempt();
      if rc != 0 {
        return;
      }
      var srk: int;
      rc, srk := tpm.MakeObject(0);
      sess.srk := srk;
      assert sess.Handles() == {srk} - {0};
      if rc != 0 {
        return;
      }
      ghost var was := tpm.log;
      rc := LoadAk(others, old(tpm.objects), sess);
      if rc == 0 {
        ghost var key :| tpm.log == was + AkSetUp(srk, sess.ak, key);
        assert tpm.log == old(tpm.log) + SetUp(srk, sess.ak, key);
      }
    }

    /** With the SRK loaded: the AK, then the rest. before is what the chip held at first. */
    method LoadAk(ghost others: set<int>, ghost before: set<int>, sess: Session) returns (rc: int)
      requires sess.srk != 0 && sess.ak == 0 && sess.decryptKey == 0
      requires tpm.Sane() && tpm.Kept() == others + {sess.srk} && sess.srk !in others
      requires tpm.objects == before + {sess.srk} && sess.srk !in before
      modifies tpm, sess`srk, sess`ak, sess`decryptKey
      ensures tpm.Sane() && tpm.Kept() - sess.Handles() == others && tpm.policies == old(tpm.policies)
      ensures sess.Handles() !! before && forall h :: h in sess.Handles() ==> IsTransient(h)
      ensures tpm.Careful()
      ensures rc == 0 ==> tpm.Kept() == others + {sess.ak} && sess.ak != 0 && sess.ak in tpm.objects
      ensures rc == 0 ==> tpm.objects == before + {sess.ak} && tpm.lost == old(tpm.lost)
      ensures rc == 0 ==> sess.srk == 0 && sess.decryptKey == 0
      ensures rc == 0 ==> exists key :: tpm.log == old(tpm.log) + AkSetUp(old(sess.srk), sess.ak, key)
      ensures SameTally(old(tpm.log), tpm.log)
      ensures old(Generous()) ==> Generous() && rc == 0
    {
      hide Tpm.Generous, FailedBefore, UnreadBefore, Decryptions, Activations;
      ghost var srk := sess.srk;
      rc := tpm.Send(CreateKey(sess.srk));
      if rc != 0 {
        return;
      }
      var ak: int;
      rc, ak := tpm.MakeObject(sess.srk);
      sess.ak := ak;
      assert sess.Handles() == {srk, ak} - {0};
      if rc != 0 {
        return;
      }
      ghost var was := tpm.log;
      rc := LoadLastKey(others, before, sess);
      if rc == 0 {
        ghost var key :| tpm.log == was + LastKey(srk, ak, key);
        assert tpm.log == old(tpm.log) + AkSetUp(srk, ak, key);
      }
    }

    /** With SRK and AK loaded: the decryption key, then the signature. before is what the chip held at first. */
    method LoadLastKey(ghost others: set<int>, ghost before: set<int>, sess: Session) returns (rc: int)
      requires sess.srk != 0 && sess.ak != 0 && sess.srk != sess.ak && sess.decryptKey == 0
      requires tpm.Sane() && tpm.Kept() == others + {sess.srk, sess.ak} && others !! {sess.srk, sess.ak}
      requires tpm.objects == before + {sess.srk, sess.ak} && before !! {sess.srk, sess.ak}
      modifies tpm, sess`srk, sess`decryptKey
      ensures tpm.Sane() && tpm.Kept() - sess.Handles() == others && tpm.policies == old(tpm.policies)
      ensures sess.Handles() !! before && forall h :: h in sess.Handles() ==> IsTransient(h)
      ensures tpm.Careful() && sess.ak in tpm.objects
      ensures rc == 0 ==> tpm.Kept() == others + {sess.ak}
      ensures rc == 0 ==> tpm.objects == before + {sess.ak} && tpm.lost == old(tpm.lost)
      ensures rc == 0 ==> sess.srk == 0 && sess.decryptKey == 0
      ensures rc == 0 ==> exists key :: tpm.log == old(tpm.log) + LastKey(old(sess.srk), sess.ak, key)
      ensures SameTally(old(tpm.log), tpm.log)
      ensures old(Generous()) ==> Generous() && rc == 0
    {
      hide Tpm.Generous, FailedBefore, UnreadBefore, Decryptions, Activations;
      rc := tpm.Send(CreateKey(sess.srk));
      if rc != 0 {
        return;
      }
      var key: int;
      rc, key := tpm.MakeObject(sess.srk);
      sess.decryptKey := key;
      assert tpm.Kept() == others + sess.Handles();
      if rc != 0 {
        return;
      }
      rc := tpm.Send(CertifyCreation(sess.ak, key));
      if rc == 0 {
        rc := KeepOnlyAk(others, before, sess);
        assert rc == 0 ==> tpm.log == old(tpm.log) + LastKey(old(sess.srk), sess.ak, key);
      }
    }

    /** Makes room for the module signer, then signs. */
    method KeepOnlyAk(ghost others: set<int>, ghost before: set<int>, sess: Session) returns (rc: int)
      requires sess.srk != 0 && sess.ak != 0 && sess.decryptKey != 0
      requires sess.srk != sess.ak && sess.ak != sess.decryptKey && sess.decryptKey != sess.srk
      requires tpm.Sane() && tpm.Kept() == others + sess.Handles() && sess.Handles() !! others
      requires tpm.objects == before + sess.Handles() && before !! sess.Handles()
      requires forall h :: h in sess.Handles() ==> IsTransient(h)
      modifies tpm, sess`srk, sess`decryptKey
      ensures sess.Handles() <= old(sess.Handles()) && sess.ak in tpm.objects && tpm.policies == old(tpm.policies)
      ensures tpm.Sane() && tpm.Kept() - sess.Handles() == others
      ensures tpm.Careful()
      ensures rc == 0 ==> tpm.Kept() == others + {sess.ak}
      ensures rc == 0 ==> tpm.objects == before + {sess.ak} && tpm.lost == old(tpm.lost)
      ensures rc == 0 ==> sess.srk == 0 && sess.decryptKey == 0
      ensures rc == 0 ==> tpm.log == old(tpm.log) + [Sign]
      ensures SameTally(old(tpm.log), tpm.log)
      ensures old(Generous()) ==> Generous() && rc == 0
    {
      hide Tpm.Generous, FailedBefore, UnreadBefore, Decryptions, Activations;
      assert sess.decryptKey in sess.Handles() && sess.srk in sess.Handles();
      rc := tpm.Flush(sess.decryptKey);
      if rc != 0 {
        return;
      }
      sess.decryptKey := 0;
      rc := tpm.Flush(sess.srk);
      if rc != 0 {
        return;
      }
      sess.srk := 0;
      rc := SignTranscript(before, sess);
    }

    // -------------------------------------------------------------------
    // The ioctls
    // -------------------------------------------------------------------

    /** maskFits: the PCR mask names only PCRs 0 to 23. */
    method CreateSession(maskFits: bool, chip: bool) returns (rc: int, id: nat)
      requires Valid()
      modifies this, tpm, sessions.Values
      ensures Valid() && uses == old(uses)
      ensures rc == 0 ==>
                && maskFits && chip && id == 1 && sessions.Keys == {1}
                && fresh(sessions[1]) && !sessions[1].activated && sessions[1].serial == old(created)
      ensures rc != 0 ==> sessions == map[] || sessions == old(sessions)
      ensures tpm.Careful()
      ensures chip && rc != 0 && sessions != map[] ==> unchanged(tpm) && unchanged(sessions.Values)
      ensures !chip || !maskFits ==> rc != 0 && sessions == old(sessions) && unchanged(tpm)
      ensures rc == 0 ==> exists srk, key :: tpm.log == old(tpm.log) + SetUp(srk, sessions[1].ak, key)
      ensures old(Generous()) ==>
                Generous() && rc == if !maskFits then EINVAL else if !chip then ENODEV else 0
    {
      id := 0;
      rc := Attempt();
      if rc != 0 {
        return;
      }
      if !maskFits {
        rc := EINVAL;
        return;
      }
      rc := Attempt();
      if rc != 0 {
        return;
      }
      if !chip {
        rc := ENODEV;
        return;
      }
      CleanupSessions(chip);
      rc, id := Establish();
    }

    /** With the table empty and the chip open: load the keys, publish the session, copy the reply out. */
    method Establish() returns (rc: int, id: nat)
      requires Valid() && sessions == map[]
      modifies this, tpm
      ensures Valid() && uses == old(uses)
      ensures rc == 0 ==>
                && id == 1 && sessions.Keys == {1}
                && fresh(sessions[1]) && !sessions[1].activated && sessions[1].serial == old(created)
      ensures rc != 0 ==> sessions == map[]
      ensures tpm.Careful()
      ensures rc == 0 ==> exists srk, key :: tpm.log == old(tpm.log) + SetUp(srk, sessions[1].ak, key)
      ensures old(Generous()) ==> Generous() && rc == 0
    {
      hide Tpm.Generous, FailedBefore, UnreadBefore, Decryptions, Activations, UsedToActivate, UsedToDecrypt, UsesKept;
      id := 0;
      var sess := new Session(created);
      created := created + 1;
      rc := LoadKeys(sess);
      if rc == 0 {
        assert 1 !in sessions;
        rc, id := AllocateId();
      }
      if rc != 0 {
        FlushSessionHandles(sess);
        return;
      }
      rc := Publish(id, sess);
    }

    /** Enters the finished session; a reply that cannot be copied out ends it again. */
    method Publish(id: nat, sess: Session) returns (rc: int)
      requires id == 1 && sessions == map[] && Settled(sess) && tpm.Sane() && tpm.Kept() == {sess.ak}
      requires UsesKept(uses) && forall k :: 0 <= k < |uses| ==> uses[k].serial < created
      requires Recorded(uses, tpm.log)
      modifies this`sessions, tpm, sess
      ensures Valid() && tpm.Careful()
      ensures rc == 0 ==> sessions == map[1 := sess] && unchanged(sess)
      ensures rc != 0 ==> sessions == map[]
      ensures tpm.log == old(tpm.log)
      ensures old(Generous()) ==> Generous() && rc == 0
    {
      sessions := sessions[id := sess];
      assert sessions == map[1 := sess] && 1 in sessions && sessions[1].ak == sess.ak;
      assert Owned() == {sess.ak};
      rc := Attempt();
      if rc != 0 {
        sessions := sessions - {id};
        assert sessions == map[];
        DestroySession(true, sess);
      }
    }

    method ActivateCredential(id: nat, sizesFit: bool, chip: bool) returns (rc: int)
      requires Valid()
      modifies this`uses, tpm, sessions.Values
      ensures Valid()
      ensures rc == 0 ==> id in sessions && sizesFit && chip && sessions[id].activated
      ensures id !in sessions ==> rc != 0 && uses == old(uses)
      ensures forall i :: i in sessions && old(sessions[i].activated) ==> sessions[i].activated
      ensures forall i :: i in sessions ==> sessions[i].ak == old(sessions[i].ak)
      ensures uses == old(uses) || (id in sessions && uses == old(uses) + [Activated(sessions[id].serial)])
      ensures !chip || !sizesFit ==> uses == old(uses) && unchanged(tpm)
      ensures tpm.Careful() && tpm.objects == old(tpm.objects)
      ensures rc == 0 ==> exists policy :: tpm.log == old(tpm.log) + Activation(sessions[id].ak, policy)
      ensures old(Generous()) ==>
                && Generous()
                && rc == if !sizesFit then EINVAL else if id !in sessions then ENOENT else if !chip then ENODEV else 0
    {
      hide Tpm.Generous, FailedBefore, UnreadBefore, Decryptions, Activations, UsedToActivate, UsedToDecrypt, UsesKept;
      rc := Attempt();
      if rc != 0 {
        return;
      }
      if !sizesFit {
        return EINVAL;
      }
      if id !in sessions {
        return ENOENT;
      }
      var sess := sessions[id];
      if sess.ak == 0 {
        return EINVAL;
      }
      if !chip {
        return ENODEV;
      }
      rc := ActivateWith(sess);
      if rc == 0 {
        rc := Attempt();
      }
    }

    /** Opens an endorsement policy session, lets the AK activate the credential, and leaves no session open. */
    method ActivateWith(sess: Session) returns (rc: int)
      requires Tracked(sess) && UsesKept(uses) && Recorded(uses, tpm.log) && tpm.Sane()
      modifies this`uses, tpm, sess`activated
      ensures tpm.objects == old(tpm.objects)
      ensures tpm.Sane() && tpm.Kept() == old(tpm.Kept()) && tpm.Careful()
      ensures Tracked(sess) && UsesKept(uses) && Recorded(uses, tpm.log)
      ensures rc == 0 ==> exists policy :: tpm.log == old(tpm.log) + Activation(sess.ak, policy)
      ensures old(Generous()) ==> Generous() && rc == 0
      ensures if rc == 0 then sess.activated && uses == old(uses) + [Activated(sess.serial)]
              else sess.activated == old(sess.activated) && uses == old(uses)
    {
      hide Tpm.Generous, FailedBefore, UnreadBefore, Decryptions, Activations, UsedToActivate, UsedToDecrypt, UsesKept;
      var policy: int;
      rc, policy := tpm.StartPolicySession();
      if rc != 0 {
        return;
      }
      ghost var started := policy;
      rc := tpm.Send(PolicySecret(policy));
      if rc == 0 {
        var performed: bool;
        rc, performed := tpm.UsePolicySession(policy, Command.ActivateCredential(sess.ak, policy));
        if rc == 0 {
          policy := 0;
          sess.activated := true;
          UsesActivate(uses, sess.serial);
          uses := uses + [Activated(sess.serial)];
        }
      }
      assert rc == 0 ==> tpm.log == old(tpm.log) + Activation(sess.ak, started);
      if policy != 0 {
        var flushed := tpm.Flush(policy);
      }
      assert rc == 0 ==> tpm.log == old(tpm.log) + Activation(sess.ak, started);
    }

    /** The session is gone whatever happens after it was found. */
    method TrustedHash(id: nat, sizeFits: bool, chip: bool) returns (rc: int)
      requires Valid()
      modifies this`sessions, this`uses, tpm, sessions.Values
      ensures Valid()
      ensures || (id in old(sessions) && sessions == old(sessions) - {id})
              || (rc != 0 && sessions == old(sessions) && uses == old(uses) && unchanged(tpm)
                  && unchanged(sessions.Values))
      ensures rc == 0 ==>
                && id in old(sessions) && id !in sessions && sizeFits && chip
                && old(sessions[id].activated) && uses == old(uses) + [Decrypted(old(sessions[id]).serial)]
      ensures uses != old(uses) ==> id in old(sessions) && old(sessions[id].activated) && id !in sessions
      ensures chip ==> tpm.Careful()
      ensures !chip ==> tpm.objects == old(tpm.objects) && tpm.lost <= old(tpm.lost) + old(Owned())
      ensures rc == 0 ==> exists srk, key, policy :: tpm.log == old(tpm.log) + Decryption(srk, key, policy)
      ensures old(Generous()) ==>
                && Generous()
                && rc == if !sizeFits then EINVAL else if id !in old(sessions) then ENOENT
                         else if !chip then ENODEV else if !old(sessions[id].activated) then EACCES else 0
    {
      rc := Attempt();
      if rc != 0 {
        return;
      }
      if !sizeFits {
        return EINVAL;
      }
      rc := Attempt();
      if rc != 0 {
        return;
      }
      if id !in sessions {
        return ENOENT;
      }
      var sess := sessions[id];
      assert sessions.Keys == {id} && Owned() == {sess.ak};
      sessions := sessions - {id};
      assert sessions == map[] && Owned() == {};
      rc := DecryptOnce(sess, chip);
    }

    /** Whatever happens, neither a policy session nor a handle of the session is kept. */
    method DecryptOnce(sess: Session, chip: bool) returns (rc: int)
      requires Settled(sess) && UsesKept(uses) && Recorded(uses, tpm.log) && tpm.Sane() && tpm.Kept() == {sess.ak}
      requires forall k :: 0 <= k < |uses| ==> uses[k].serial < created
      modifies this`uses, tpm, sess
      ensures tpm.Sane() && tpm.Kept() == {} && (chip ==> tpm.Careful())
      ensures !chip ==> tpm.objects == old(tpm.objects) && tpm.lost <= old(tpm.lost) + {old(sess.ak)}
      ensures UsesKept(uses) && Recorded(uses, tpm.log)
      ensures rc == 0 ==> exists srk, key, policy :: tpm.log == old(tpm.log) + Decryption(srk, key, policy)
      ensures old(Generous()) ==>
                Generous() && rc == if !chip then ENODEV else if !old(sess.activated) then EACCES else 0
      ensures uses == old(uses) || (chip && old(sess.activated) && uses == old(uses) + [Decrypted(sess.serial)])
      ensures rc == 0 ==> uses != old(uses)
    {
      var policy := 0;
      rc := ENODEV;
      if chip {
        rc, policy := DecryptWith(sess);
      } else {
        assert sess.Handles() == {sess.ak};
      }
      if policy != 0 {
        var flushed := tpm.Flush(policy);
      }
      assert tpm.Kept() == {sess.ak} + sess.Handles();
      DestroySession(chip, sess);
    }

    /** SRK and decryption key, next to the AK that the session kept. */
    method ReloadKeys(sess: Session) returns (rc: int)
      requires Settled(sess) && tpm.Sane() && sess.ak in tpm.Kept()
      modifies tpm, sess`srk, sess`decryptKey
      ensures tpm.Sane() && tpm.Kept() == old(tpm.Kept()) + sess.Handles() && tpm.policies == old(tpm.policies)
      ensures tpm.Careful()
      ensures sess.Handles() * old(tpm.objects) == {sess.ak} && old(tpm.objects) <= tpm.objects
      ensures forall h :: h in sess.Handles() ==> IsTransient(h)
      ensures SameTally(old(tpm.log), tpm.log)
      ensures rc == 0 ==> tpm.log == old(tpm.log) + [CreatePrimary(sess.srk), Load(sess.srk, sess.decryptKey)]
      ensures old(Generous()) ==> Generous() && rc == 0
    {
      assert sess.Handles() == {sess.ak};
      rc := Attempt();
      if rc != 0 {
        return;
      }
      var srk: int;
      rc, srk := tpm.MakeObject(0);
      sess.srk := srk;
      assert sess.Handles() == {sess.ak, srk} - {0};
      if rc != 0 {
        return;
      }
      var key: int;
      rc, key := tpm.MakeObject(srk);
      sess.decryptKey := key;
      assert sess.Handles() == {sess.ak, srk, key} - {0};
    }

    /** Reloads the decryption key of an activated session and uses it once. policy is the policy session the
        caller still has to flush, 0 for none. */
    method DecryptWith(sess: Session) returns (rc: int, policy: int)
      requires Settled(sess) && UsesKept(uses) && Recorded(uses, tpm.log) && tpm.Sane() && sess.ak in tpm.Kept()
      modifies this`uses, tpm, sess
      ensures sess.ak == old(sess.ak)
      ensures tpm.Sane() && tpm.Kept() - {policy} == old(tpm.Kept()) + sess.Handles() && tpm.Careful()
      ensures sess.Handles() * old(tpm.objects) == {sess.ak} && sess.ak != 0
      ensures UsesKept(uses) && Recorded(uses, tpm.log)
      ensures rc == 0 ==> exists srk, key, policy :: tpm.log == old(tpm.log) + Decryption(srk, key, policy)
      ensures old(Generous()) ==> Generous() && rc == if !old(sess.activated) then EACCES else 0
      ensures uses == old(uses) || (old(sess.activated) && uses == old(uses) + [Decrypted(sess.serial)])
      ensures rc == 0 ==> uses != old(uses)
      ensures policy == 0 || IsPolicySession(policy)
    {
      hide Tpm.Generous, FailedBefore, UnreadBefore, Decryptions, Activations, UsesKept;
      policy := 0;
      if !sess.activated {
        return EACCES, 0;
      }
      rc := ReloadKeys(sess);
      if rc != 0 {
        return;
      }
      ghost var reloaded := tpm.log;
      rc, policy := DecryptUnderPolicy(sess);
      if rc == 0 {
        ghost var p :| tpm.log == reloaded + UnderPolicy(sess.decryptKey, p);
        assert tpm.log == old(tpm.log) + Decryption(sess.srk, sess.decryptKey, p);
      }
    }

    /** The policy on PCRs and key authorisation, then the one decryption. */
    method DecryptUnderPolicy(sess: Session) returns (rc: int, policy: int)
      requires Tracked(sess) && sess.activated && UsesKept(uses) && Recorded(uses, tpm.log) && tpm.Sane()
      modifies this`uses, tpm
      ensures tpm.Sane() && tpm.objects == old(tpm.objects) && tpm.Careful()
      ensures tpm.Kept() - {policy} == old(tpm.Kept()) && (policy == 0 || IsPolicySession(policy))
      ensures UsesKept(uses) && Recorded(uses, tpm.log)
      ensures uses == old(uses) || uses == old(uses) + [Decrypted(sess.serial)]
      ensures rc == 0 ==> uses != old(uses)
      ensures rc == 0 ==> exists p :: tpm.log == old(tpm.log) + UnderPolicy(sess.decryptKey, p)
      ensures old(Generous()) ==> Generous() && rc == 0
    {
      hide Tpm.Generous, FailedBefore, UnreadBefore, Decryptions, Activations, UsedToActivate, UsedToDecrypt, UsesKept;
      rc, policy := tpm.StartPolicySession();
      if rc != 0 {
        return;
      }
      ghost var started := policy;
      rc := tpm.Send(PolicyPcr(policy));
      if rc != 0 {
        return;
      }
      rc := tpm.Send(PolicyAuthValue(policy));
      if rc != 0 {
        return;
      }
      var performed: bool;
      rc, performed := tpm.UsePolicySession(policy, Command.RsaDecrypt(sess.decryptKey, policy));
      if performed {
        UsesDecrypt(uses, sess.serial);
        uses := uses + [Decrypted(sess.serial)];
      }
      if rc == 0 {
        assert tpm.log == old(tpm.log) + UnderPolicy(sess.decryptKey, started);
        policy := 0;
        rc := Attempt();
      }
    }

    method CancelSession(id: nat, chip: bool) returns (rc: int)
      requires Valid()
      modifies this`sessions, tpm, sessions.Values
      ensures Valid()
      ensures rc == 0 ==> id in old(sessions) && sessions == map[]
      ensures rc == 0 && !chip ==> tpm.objects == old(tpm.objects)
      ensures rc == 0 ==> tpm.Kept() == {} && tpm.lost <= old(tpm.lost) + old(Owned())
      ensures chip ==> tpm.Careful()
      ensures rc != 0 ==> sessions == old(sessions) && unchanged(tpm)
      ensures tpm.log == old(tpm.log)
      ensures old(Generous()) ==> Generous() && rc == if id in old(sessions) then 0 else ENOENT
    {
      rc := Attempt();
      if rc != 0 {
        return;
      }
      if id !in sessions {
        return ENOENT;
      }
      var sess := sessions[id];
      sessions := sessions - {id};
      DestroySession(chip, sess);
    }

    /** The device's dispatch on the ioctl number. */
    method Ioctl(call: Call) returns (rc: int)
      requires Valid()
      modifies this, tpm, sessions.Values
      ensures Valid()
      ensures fresh(sessions.Values - old(sessions.Values))
      ensures call.chip ==> tpm.Careful()
    {
      match call
      case Create(maskFits, chip) =>
        var id: nat;
        rc, id := CreateSession(maskFits, chip);
      case Activate(id, sizesFit, chip) =>
        rc := ActivateCredential(id, sizesFit, chip);
      case Hash(id, sizeFits, chip) =>
        rc := TrustedHash(id, sizeFits, chip);
      case Cancel(id, chip) =>
        rc := CancelSession(id, chip);
    }
  }

  predicate ChipPresent(calls: seq<Call>) {
    forall k :: 0 <= k < |calls| ==> calls[k].chip
  }

  /** No flush of a held handle fails and every new handle can be read. */
  ghost predicate Benign(fate: Fate) {
    && (forall k :: fate.flushes(k)) && (forall k :: !fate.objects(k).stage.HandleUnread?)
    && forall k :: !fate.policies(k).stage.HandleUnread?
  }

  lemma BenignFaults(tpm: Tpm)
    requires Benign(tpm.fate)
    ensures tpm.Faults() == 0
  {
    NeverFails(tpm.fate.flushes, tpm.flushed);
    AlwaysRead(tpm.fate.objects, tpm.madeObjects);
    AlwaysRead(tpm.fate.policies, tpm.madePolicies);
  }

  /** The ioctls one after the other, on a module that has lost nothing so far. */
  method RunCalls(m: Module, calls: seq<Call>)
    requires m.Valid() && m.tpm.lost == {} && m.tpm.Faults() == 0
    modifies m, m.tpm, m.sessions.Values
    ensures m.Valid()
    ensures ChipPresent(calls) && m.tpm.Faults() == 0 ==> m.tpm.lost == {}
  {
    hide UsesKept, Recorded, FailedBefore, UnreadBefore, ChipPresent;
    for n := 0 to |calls|
      invariant m.Valid() && fresh(m.sessions.Values - old(m.sessions.Values))
      invariant ChipPresent(calls) && m.tpm.Faults() == 0 ==> m.tpm.lost == {}
    {
      PresentAt(calls, n);
      var rc := m.Ioctl(calls[n]);
    }
  }

  lemma PresentAt(calls: seq<Call>, n: nat)
    requires n < |calls|
    ensures ChipPresent(calls) ==> calls[n].chip
  {
  }

  /** Any sequence of ioctls, against any chip: a session table of at most one entry; the chip holds its AK, what was
      lost, and nothing else; every decryption is backed by its own activation, and the chip never decrypted more often
      than it activated. If the chip is there at every call and benign, nothing is lost: the AK is the only object and
      no policy session is open. */
  method Serve(calls: seq<Call>, fate: Fate, reliable: bool) returns (m: Module)
    ensures m.Valid() && m.tpm.fate == fate
    ensures |m.sessions| <= 1 && UsesKept(m.uses)
    ensures m.tpm.objects + m.tpm.policies == m.Owned() + m.tpm.lost && m.Owned() !! m.tpm.lost
    ensures m.Owned() <= m.tpm.objects && |m.Owned()| <= 1
    ensures Decryptions(m.tpm.log) <= Activations(m.tpm.log)
    ensures ChipPresent(calls) && m.tpm.Faults() == 0 ==> m.tpm.objects == m.Owned() && m.tpm.policies == {}
    ensures ChipPresent(calls) && Benign(fate) ==> m.tpm.objects == m.Owned() && m.tpm.policies == {}
  {
    hide UsesKept, FailedBefore, UnreadBefore, Benign, ChipPresent, Decryptions, Activations, UsedToDecrypt;
    hide UsedToActivate;
    m := new Module(fate, reliable);
    RunCalls(m, calls);
    m.AtMostOne();
    m.NothingElse();
    ActivatedFirst(m.uses);
    if Benign(fate) {
      BenignFaults(m.tpm);
    }
  }

  /** A chip that does everything it is asked to. */
  ghost predicate Obliging(fate: Fate) {
    && Always(fate.flushes, 0) && Always(fate.replies, 0)
    && Supplies(fate.objects, 0, {}, 0x80) && Supplies(fate.policies, 0, {}, 0x03)
  }

  /** The commands of a session that is set up, activated and used. */
  ghost predicate InWholeSession(log: seq<Command>) {
    exists srk, ak, key, endorsement, again, reloaded, policy ::
      log == [CreatePrimary(srk), CreateKey(srk), Load(srk, ak), CreateKey(srk), Load(srk, key),
              CertifyCreation(ak, key), Sign,
              StartPolicy(endorsement), PolicySecret(endorsement), ActivateCredential(ak, endorsement),
              CreatePrimary(again), Load(again, reloaded),
              StartPolicy(policy), PolicyPcr(policy), PolicyAuthValue(policy), RsaDecrypt(reloaded, policy)]
  }

  lemma SetUpCommands(srk: int, ak: int, key: int)
    ensures SetUp(srk, ak, key)
         == [CreatePrimary(srk), CreateKey(srk), Load(srk, ak), CreateKey(srk), Load(srk, key),
             CertifyCreation(ak, key), Sign]
  {
  }

  lemma DecryptionCommands(srk: int, key: int, policy: int)
    ensures Decryption(srk, key, policy)
         == [CreatePrimary(srk), Load(srk, key),
             StartPolicy(policy), PolicyPcr(policy), PolicyAuthValue(policy), RsaDecrypt(key, policy)]
  {
  }

  lemma AllCommands(srk: int, ak: int, key: int, endorsement: int, again: int, reloaded: int, policy: int)
    ensures InWholeSession(SetUp(srk, ak, key) + Activation(ak, endorsement) + Decryption(again, reloaded, policy))
  {
    hide SetUp, Decryption;
    SetUpCommands(srk, ak, key);
    DecryptionCommands(again, reloaded, policy);
    assert SetUp(srk, ak, key) + Activation(ak, endorsement)
        == [CreatePrimary(srk), CreateKey(srk), Load(srk, ak), CreateKey(srk), Load(srk, key),
            CertifyCreation(ak, key), Sign,
            StartPolicy(endorsement), PolicySecret(endorsement), ActivateCredential(ak, endorsement)];
  }

  /** When nothing fails, a session can be set up, activated and used, after which nothing is left of it. */
  method WholeSession(fate: Fate) returns (m: Module)
    requires Obliging(fate)
    ensures m.Valid() && m.sessions == map[] && m.tpm.objects == {} && m.tpm.policies == {}
    ensures m.uses == [Activated(0), Decrypted(0)]
    ensures InWholeSession(m.tpm.log)
  {
    hide UsesKept, FailedBefore, UnreadBefore, Always, Supplies, Recorded, InWholeSession, SetUp, Activation;
    hide Decryption;
    BenignWhenObliging(fate);
    m := new Module(fate, true);
    var rc, id := m.CreateSession(true, true);
    ghost var ak := m.sessions[1].ak;
    ghost var srk, key :| m.tpm.log == [] + SetUp(srk, ak, key);
    ghost var log := m.tpm.log;
    rc := m.ActivateCredential(1, true, true);
    ghost var endorsement :| m.tpm.log == log + Activation(ak, endorsement);
    log := m.tpm.log;
    rc := m.TrustedHash(1, true, true);
    ghost var again, reloaded, policy :| m.tpm.log == log + Decryption(again, reloaded, policy);
    AllCommands(srk, ak, key, endorsement, again, reloaded, policy);
    assert m.tpm.log == SetUp(srk, ak, key) + Activation(ak, endorsement) + Decryption(again, reloaded, policy);
    BenignFaults(m.tpm);
    m.NothingElse();
  }

  lemma BenignWhenObliging(fate: Fate)
    requires Obliging(fate)
    ensures Benign(fate)
  {
  }
}
