/** The hash-chained audit log (crates/audit/src/store.rs). The keyed hash under
    the store's chain key is a parameter; its only assumed property is the output
    length. */
module AuditChain {
  import opened Text

  type Bytes = seq<nat>
  type Hash = Bytes -> Bytes

  const HASH_LEN: nat := 32
  const SIGN_INTERVAL: nat := 20
  const ZERO_EIGHT: Bytes := [0, 0, 0, 0, 0, 0, 0, 0]
  const GENESIS: Bytes := ZERO_EIGHT + ZERO_EIGHT + ZERO_EIGHT + ZERO_EIGHT

  ghost predicate HashLike(h: Hash) { forall x :: |h(x)| == HASH_LEN }

  datatype Entry = Entry(at: int, action: string, commitment: Bytes, prevHash: Bytes, hash: Bytes, sealed: Bytes)

  /** Row `seq` of audit_head_signatures. */
  datatype HeadSignature = HeadSignature(seqNo: nat, hash: Bytes, signature: Bytes, signedAt: int) {
    predicate Checks(verify: (Bytes, Bytes) -> bool) { verify(HeadMessage(seqNo, hash), signature) }
  }

  ghost predicate Latest(signatures: seq<HeadSignature>, s: HeadSignature) {
    forall t :: t in signatures ==> t.signedAt <= s.signedAt
  }

  function Head(log: seq<Entry>): Bytes { if log == [] then GENESIS else log[|log| - 1].hash }

  /** Entry i continues the chain. */
  predicate LinkAt(h: Hash, log: seq<Entry>, i: nat)
    requires i < |log|
  {
    && log[i].prevHash == Head(log[..i])
    && log[i].hash == h(log[i].prevHash + log[i].commitment)
  }

  ghost predicate Linked(h: Hash, log: seq<Entry>) { forall i: nat :: i < |log| ==> LinkAt(h, log, i) }

  function NewEntry(h: Hash, log: seq<Entry>, action: string, detail: Bytes, at: int, sealed: Bytes): Entry {
    Entry(at, action, h(detail), Head(log), h(Head(log) + h(detail)), sealed)
  }

  /** The k low bytes of n, the most significant first. */
  function BigEndian(n: nat, k: nat): Bytes {
    if k == 0 then [] else BigEndian(n / 256, k - 1) + [n % 256]
  }

  /** `seq` as eight big-endian bytes, then the hash. */
  function HeadMessage(seqNo: nat, hash: Bytes): Bytes { BigEndian(seqNo, 8) + hash }

  /** A signature row for the last entry. */
  function SignatureOf(sign: Bytes -> Bytes, log: seq<Entry>, at: int): HeadSignature
    requires log != []
  {
    HeadSignature(|log|, log[|log| - 1].hash, sign(HeadMessage(|log|, log[|log| - 1].hash)), at)
  }

  class AuditStore {
    const h: Hash
    const sign: Bytes -> Bytes
    var log: seq<Entry>
    var signatures: seq<HeadSignature>

    /** The chain verifies, every twentieth head is signed, and every signature row
        signs an entry the log holds. */
    ghost predicate Valid()
      reads this
    {
      Linked(h, log) && Anchored(log, signatures) && Signed(log, signatures, sign)
    }

    constructor (h: Hash, sign: Bytes -> Bytes)
      ensures Valid() && log == [] && signatures == [] && this.h == h && this.sign == sign
    {
      this.h, this.sign, log, signatures := h, sign, [], [];
    }

    /** Appends one entry; no earlier row changes. */
    method Log(action: string, detail: Bytes, at: int, sealed: Bytes)
      requires Valid()
      modifies this
      ensures Valid() && log == old(log) + [NewEntry(h, old(log), action, detail, at, sealed)]
      ensures var e := log[|old(log)|];
        && e.at == at && e.action == action && e.sealed == sealed && e.commitment == h(detail)
        && e.prevHash == (if old(log) == [] then seq(32, _ => 0) else old(log)[|old(log)| - 1].hash)
        && e.hash == h(e.prevHash + e.commitment)
      ensures signatures == old(signatures) +
        if |log| % 20 == 0 then [SignatureOf(sign, log, at)] else []
    {
      var prevHash := if log == [] then GENESIS else log[|log| - 1].hash;
      var commitment := h(detail);
      var hash := h(prevHash + commitment);
      ghost var before := log;
      log := log + [Entry(at, action, commitment, prevHash, hash, sealed)];
      AppendLinks(h, before, log[|before|]);
      var seqNo := |log|;
      if seqNo % SIGN_INTERVAL == 0 {
        var row := HeadSignature(seqNo, hash, sign(HeadMessage(seqNo, hash)), at);
        MoreSignatures(signatures, row);
        signatures := signatures + [row];
      }
    }

    /** `sign_head_now`: an empty log gets no signature. */
    method SignHeadNow(at: int)
      requires Valid()
      modifies this`signatures
      ensures Valid() && (log == [] ==> signatures == old(signatures))
      ensures log != [] ==> signatures == old(signatures) + [SignatureOf(sign, log, at)] && HasSignature(signatures, |log|)
    {
      if log != [] {
        var seqNo, hash := |log|, log[|log| - 1].hash;
        var row := HeadSignature(seqNo, hash, sign(HeadMessage(seqNo, hash)), at);
        MoreSignatures(signatures, row);
        signatures := signatures + [row];
      }
    }

    /** `verify_latest_signature`: checks a most recently signed row on its own; the
        log it claims to cover is not read. */
    method VerifyLatestSignature(verify: (Bytes, Bytes) -> bool) returns (r: Option<bool>)
      ensures r.None? <==> signatures == []
      ensures r.Some? ==> exists s :: s in signatures && Latest(signatures, s) && r.value == s.Checks(verify)
      ensures Valid() && (forall m :: verify(m, sign(m))) ==> r != Some(false)
    {
      if signatures == [] {
        return None;
      }
      var latest := signatures[0];
      for i := 1 to |signatures|
        invariant latest in signatures
        invariant forall k :: 0 <= k < i ==> signatures[k].signedAt <= latest.signedAt
      {
        if signatures[i].signedAt > latest.signedAt { latest := signatures[i]; }
      }
      r := Some(latest.Checks(verify));
    }

    /** `verify_chain`: true exactly for a linked chain. */
    method VerifyChain() returns (ok: bool)
      ensures ok <==> Linked(h, log)
    {
      var expectedPrev := GENESIS;
      for i := 0 to |log|
        invariant expectedPrev == Head(log[..i])
        invariant forall k: nat :: k < i ==> LinkAt(h, log, k)
      {
        if log[i].prevHash != expectedPrev {
          assert !LinkAt(h, log, i);
          return false;
        }
        var expectedHash := h(expectedPrev + log[i].commitment);
        if expectedHash != log[i].hash {
          assert !LinkAt(h, log, i);
          return false;
        }
        expectedPrev := expectedHash;
        assert log[..i + 1][|log[..i + 1]| - 1] == log[i];
      }
      ok := true;
    }
  }

  ghost predicate Anchored(log: seq<Entry>, signatures: seq<HeadSignature>) {
    forall n: nat :: 1 <= n <= |log| && n % SIGN_INTERVAL == 0 ==> HasSignature(signatures, n)
  }

  ghost predicate HasSignature(signatures: seq<HeadSignature>, n: nat) {
    exists s :: s in signatures && s.seqNo == n
  }

  ghost predicate Signed(log: seq<Entry>, signatures: seq<HeadSignature>, sign: Bytes -> Bytes) {
    forall s :: s in signatures ==>
      1 <= s.seqNo <= |log| && s.hash == log[s.seqNo - 1].hash && s.signature == sign(HeadMessage(s.seqNo, s.hash))
  }

  lemma {:induction false} MoreSignatures(signatures: seq<HeadSignature>, s: HeadSignature)
    ensures HasSignature(signatures + [s], s.seqNo)
    ensures forall n: nat :: HasSignature(signatures, n) ==> HasSignature(signatures + [s], n)
  {
    var all := signatures + [s];
    assert all[|signatures|] == s;
    forall n: nat | HasSignature(signatures, n) ensures HasSignature(all, n) {
      var t :| t in signatures && t.seqNo == n;
      assert t in all;
    }
  }

  lemma {:induction false} AppendLinks(h: Hash, log: seq<Entry>, e: Entry)
    requires Linked(h, log) && e.prevHash == Head(log) && e.hash == h(e.prevHash + e.commitment)
    ensures Linked(h, log + [e])
  {
    forall i: nat | i < |log + [e]| ensures LinkAt(h, log + [e], i) {
      if i < |log| {
        assert LinkAt(h, log, i) && (log + [e])[..i] == log[..i];
      } else {
        assert (log + [e])[..i] == log;
      }
    }
  }

  /** An accepted chain's beginnings are accepted, so the chain alone does not
      reveal that its end was cut off. */
  lemma {:induction false} PrefixLinks(h: Hash, log: seq<Entry>, n: nat)
    requires Linked(h, log) && n <= |log|
    ensures Linked(h, log[..n])
  {
    forall i: nat | i < n ensures LinkAt(h, log[..n], i) { assert LinkAt(h, log, i) && log[..n][..i] == log[..i]; }
  }

  // ------------------------------------------------------------------
  // Tamper evidence
  // ------------------------------------------------------------------

  /** What the chain covers of an entry. */
  function Covered(e: Entry): (Bytes, Bytes, Bytes) { (e.commitment, e.prevHash, e.hash) }

  ghost predicate SameCovered(a: seq<Entry>, b: seq<Entry>) {
    |a| == |b| && forall i :: 0 <= i < |a| ==> Covered(a[i]) == Covered(b[i])
  }

  datatype Finding = Same | Collision(x: Bytes, y: Bytes) | GenesisPreimage(x: Bytes)

  /** The finding is a real break of the hash. */
  predicate Breaks(h: Hash, f: Finding) {
    match f
    case Same => false
    case Collision(x, y) => x != y && h(x) == h(y)
    case GenesisPreimage(x) => h(x) == GENESIS
  }

  /** Two accepted chains with the same head agree in every covered column, or
      comparing them from the end yields a concrete collision of the keyed hash or
      a preimage of the genesis hash. */
  lemma {:induction false} TamperEvidence(h: Hash, a: seq<Entry>, b: seq<Entry>) returns (f: Finding)
    requires HashLike(h) && Linked(h, a) && Linked(h, b) && Head(a) == Head(b)
    ensures if f.Same? then SameCovered(a, b) else Breaks(h, f)
    decreases |a|
  {
    if a == [] && b == [] {
      return Same;
    }
    if a == [] {
      LastLink(h, b);
      return GenesisPreimage(Preimage(b));
    }
    LastLink(h, a);
    if b == [] {
      return GenesisPreimage(Preimage(a));
    }
    LastLink(h, b);
    if Preimage(a) != Preimage(b) {
      return Collision(Preimage(a), Preimage(b));
    }
    var x, y := a[|a| - 1], b[|b| - 1];
    HeadLength(h, a[..|a| - 1]);
    HeadLength(h, b[..|b| - 1]);
    assert Preimage(a)[..HASH_LEN] == x.prevHash && Preimage(b)[..HASH_LEN] == y.prevHash;
    assert Preimage(a)[HASH_LEN..] == x.commitment && Preimage(b)[HASH_LEN..] == y.commitment;
    f := TamperEvidence(h, a[..|a| - 1], b[..|b| - 1]);
    if f.Same? {
      forall i | 0 <= i < |a| ensures Covered(a[i]) == Covered(b[i]) {
        if i < |a| - 1 { assert a[..|a| - 1][i] == a[i] && b[..|b| - 1][i] == b[i]; }
      }
    }
  }

  /** What the last entry's hash is the hash of. */
  function Preimage(log: seq<Entry>): Bytes
    requires log != []
  {
    log[|log| - 1].prevHash + log[|log| - 1].commitment
  }

  lemma {:induction false} LastLink(h: Hash, log: seq<Entry>)
    requires Linked(h, log) && log != []
    ensures Head(log) == h(Preimage(log)) && log[|log| - 1].prevHash == Head(log[..|log| - 1])
    ensures Linked(h, log[..|log| - 1])
  {
    assert LinkAt(h, log, |log| - 1);
    PrefixLinks(h, log, |log| - 1);
  }

  lemma {:induction false} HeadLength(h: Hash, log: seq<Entry>)
    requires HashLike(h) && Linked(h, log)
    ensures |Head(log)| == HASH_LEN
  {
    if log != [] { assert LinkAt(h, log, |log| - 1); }
  }

  /** The action, time and sealed text are not covered: whether a log is accepted
      depends on the covered columns alone. */
  lemma {:induction false} OnlyCoveredColumnsMatter(h: Hash, a: seq<Entry>, b: seq<Entry>)
    requires SameCovered(a, b) && Linked(h, a)
    ensures Linked(h, b) && Head(a) == Head(b)
  {
    forall i: nat | i < |b| ensures LinkAt(h, b, i) {
      assert LinkAt(h, a, i) && Covered(a[i]) == Covered(b[i]);
      if i > 0 { assert a[..i][i - 1] == a[i - 1] && b[..i][i - 1] == b[i - 1] && Covered(a[i - 1]) == Covered(b[i - 1]); }
    }
  }

  // ------------------------------------------------------------------
  // Signatures
  // ------------------------------------------------------------------

  function Pow256(k: nat): nat { if k == 0 then 1 else 256 * Pow256(k - 1) }

  lemma {:induction false} BigEndianInjective(m: nat, n: nat, k: nat)
    requires m < Pow256(k) && n < Pow256(k) && BigEndian(m, k) == BigEndian(n, k)
    ensures m == n
  {
    if k == 0 {
    } else {
      var a, b := BigEndian(m, k), BigEndian(n, k);
      BigEndianLength(m / 256, k - 1);
      BigEndianLength(n / 256, k - 1);
      assert a[k - 1] == m % 256 && b[k - 1] == n % 256;
      assert a[..k - 1] == BigEndian(m / 256, k - 1) && b[..k - 1] == BigEndian(n / 256, k - 1);
      BigEndianInjective(m / 256, n / 256, k - 1);
    }
  }

  lemma {:induction false} BigEndianLength(n: nat, k: nat)
    ensures |BigEndian(n, k)| == k
  {
    if k == 0 {
    } else {
      BigEndianLength(n / 256, k - 1);
    }
  }

  /** Sequence numbers are 64-bit. */
  const SEQ_LIMIT: nat := 0x1_0000_0000_0000_0000

  lemma {:induction false} EightBytes()
    ensures Pow256(8) == SEQ_LIMIT
  {
    assert Pow256(2) == 0x1_0000;
    assert Pow256(4) == 0x1_0000_0000;
    assert Pow256(6) == 0x1_0000_0000_0000;
  }

  /** The number these bytes write down, the most significant first. */
  function Number(bytes: Bytes): nat {
    if bytes == [] then 0 else Number(bytes[..|bytes| - 1]) * 256 + bytes[|bytes| - 1]
  }

  lemma {:induction false} BigEndianNumber(n: nat, k: nat)
    requires n < Pow256(k)
    ensures Number(BigEndian(n, k)) == n
  {
    if k == 0 {
    } else {
      BigEndianNumber(n / 256, k - 1);
      assert BigEndian(n, k)[..|BigEndian(n, k)| - 1] == BigEndian(n / 256, k - 1);
    }
  }

  /** What is signed: the entry's number in eight bytes, the most significant first, and
      then its hash. */
  lemma {:induction false} HeadMessageLayout(n: nat, hash: Bytes)
    requires n < SEQ_LIMIT
    ensures |HeadMessage(n, hash)| == 8 + |hash| && Number(HeadMessage(n, hash)[..8]) == n && HeadMessage(n, hash)[8..] == hash
  {
    EightBytes();
    BigEndianLength(n, 8);
    BigEndianNumber(n, 8);
    assert HeadMessage(n, hash)[..8] == BigEndian(n, 8);
  }

  /** A signed message names one entry: the number and the hash can be read off it. */
  lemma {:induction false} HeadMessageInjective(m: nat, a: Bytes, n: nat, b: Bytes)
    requires m < SEQ_LIMIT && n < SEQ_LIMIT && HeadMessage(m, a) == HeadMessage(n, b)
    ensures m == n && a == b
  {
    EightBytes();
    BigEndianLength(m, 8);
    BigEndianLength(n, 8);
    assert HeadMessage(m, a)[..8] == BigEndian(m, 8) && HeadMessage(n, b)[..8] == BigEndian(n, 8);
    assert HeadMessage(m, a)[8..] == a && HeadMessage(n, b)[8..] == b;
    BigEndianInjective(m, n, 8);
  }

  /** Only what the store signed is accepted. */
  ghost predicate Unforged(signatures: seq<HeadSignature>, verify: (Bytes, Bytes) -> bool) {
    forall m, x :: verify(m, x) ==> exists s :: s in signatures && m == HeadMessage(s.seqNo, s.hash)
  }

  /** The row is about this log: its hash is that of the entry it names. */
  predicate Covers(s: HeadSignature, log: seq<Entry>) {
    1 <= s.seqNo <= |log| && s.hash == log[s.seqNo - 1].hash
  }

  lemma {:induction false} CheckedRowIsSigned(sign: Bytes -> Bytes, original: seq<Entry>, signatures: seq<HeadSignature>,
                                              verify: (Bytes, Bytes) -> bool, s: HeadSignature)
    requires |original| < SEQ_LIMIT && Signed(original, signatures, sign)
    requires Unforged(signatures, verify) && s.Checks(verify) && s.seqNo < SEQ_LIMIT
    ensures Covers(s, original)
  {
    var row :| row in signatures && HeadMessage(s.seqNo, s.hash) == HeadMessage(row.seqNo, row.hash);
    HeadMessageInjective(s.seqNo, s.hash, row.seqNo, row.hash);
  }

  /** A signature that checks pins the log up to the entry it names. Let the store have
      logged `original` and signed as it does, and let somebody hold a signature row
      that checks and an accepted log that it covers: the store did log that many
      entries, and the two logs agree so far, or the hash is broken. */
  lemma {:induction false} SignaturePinsPrefix(h: Hash, sign: Bytes -> Bytes, original: seq<Entry>, signatures: seq<HeadSignature>,
                                               verify: (Bytes, Bytes) -> bool, s: HeadSignature, other: seq<Entry>)
    returns (f: Finding)
    requires HashLike(h) && Linked(h, original) && |original| < SEQ_LIMIT && Signed(original, signatures, sign)
    requires Unforged(signatures, verify) && s.Checks(verify) && s.seqNo < SEQ_LIMIT
    requires Linked(h, other) && Covers(s, other)
    ensures Covers(s, original)
    ensures if f.Same? then SameCovered(original[..s.seqNo], other[..s.seqNo]) else Breaks(h, f)
  {
    CheckedRowIsSigned(sign, original, signatures, verify, s);
    PrefixLinks(h, original, s.seqNo);
    PrefixLinks(h, other, s.seqNo);
    f := TamperEvidence(h, original[..s.seqNo], other[..s.seqNo]);
  }

  /** What the missing comparison would add. For a row that checks, with any accepted
      log: the row's hash is that of the entry it names exactly if the log agrees with
      the store's up to that entry, or the hash is broken. */
  lemma {:induction false} CoversExactly(h: Hash, sign: Bytes -> Bytes, original: seq<Entry>, signatures: seq<HeadSignature>,
                                         verify: (Bytes, Bytes) -> bool, s: HeadSignature, other: seq<Entry>)
    returns (f: Finding)
    requires HashLike(h) && Linked(h, original) && |original| < SEQ_LIMIT && Signed(original, signatures, sign)
    requires Unforged(signatures, verify) && s.Checks(verify) && s.seqNo < SEQ_LIMIT && Linked(h, other)
    ensures Covers(s, original)
    ensures if f.Same? then Covers(s, other) <==> s.seqNo <= |other| && SameCovered(original[..s.seqNo], other[..s.seqNo])
            else Breaks(h, f)
  {
    CheckedRowIsSigned(sign, original, signatures, verify, s);
    f := Same;
    if Covers(s, other) {
      f := SignaturePinsPrefix(h, sign, original, signatures, verify, s, other);
    }
  }

  /** The code makes no such comparison: after any replacement of the log the latest
      signature still gets the verdict true. */
  method ReplacedLogPasses(h: Hash, sign: Bytes -> Bytes, verify: (Bytes, Bytes) -> bool, e: Event, signedAt: int, other: seq<Entry>)
    returns (store: AuditStore, r: Option<bool>)
    requires forall m :: verify(m, sign(m))
    ensures store.log == other && r == Some(true)
  {
    store := new AuditStore(h, sign);
    store.Log(e.action, e.detail, e.at, e.sealed);
    store.SignHeadNow(signedAt);
    store.log := other;
    r := store.VerifyLatestSignature(verify);
  }

  // ------------------------------------------------------------------
  // Logged details
  // ------------------------------------------------------------------

  datatype Event = Event(action: string, detail: Bytes, at: int, sealed: Bytes)

  function Logged(h: Hash, log: seq<Entry>, e: Event): seq<Entry> {
    log + [NewEntry(h, log, e.action, e.detail, e.at, e.sealed)]
  }

  /** The log after a run of `log` calls. */
  function LogOf(h: Hash, run: seq<Event>): seq<Entry> {
    if run == [] then []
    else
      Logged(h, LogOf(h, run[..|run| - 1]), run[|run| - 1])
  }

  lemma {:induction false} RunsVerify(h: Hash, run: seq<Event>)
    ensures Linked(h, LogOf(h, run)) && |LogOf(h, run)| == |run|
    ensures forall i :: 0 <= i < |run| ==> LogOf(h, run)[i].commitment == h(run[i].detail)
  {
    if run == [] {
    } else {
      var log := LogOf(h, run[..|run| - 1]);
      RunsVerify(h, run[..|run| - 1]);
      AppendLinks(h, log, LogOf(h, run)[|run| - 1]);
    }
  }

  /** Two runs of `log` that end with the same head logged the same details in the
      same order, or the hash is broken. */
  lemma {:induction false} SameHeadSameDetails(h: Hash, r1: seq<Event>, r2: seq<Event>) returns (f: Finding)
    requires HashLike(h) && Head(LogOf(h, r1)) == Head(LogOf(h, r2))
    ensures if f.Same? then |r1| == |r2| && forall i :: 0 <= i < |r1| ==> r1[i].detail == r2[i].detail else Breaks(h, f)
  {
    RunsVerify(h, r1);
    RunsVerify(h, r2);
    f := TamperEvidence(h, LogOf(h, r1), LogOf(h, r2));
    if f.Same? && exists i :: 0 <= i < |r1| && r1[i].detail != r2[i].detail {
      var i :| 0 <= i < |r1| && r1[i].detail != r2[i].detail;
      assert Covered(LogOf(h, r1)[i]) == Covered(LogOf(h, r2)[i]);
      f := Collision(r1[i].detail, r2[i].detail);
    }
  }
}
