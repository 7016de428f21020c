/** The leaf hash fixes the whole history; emitted records always verify; records mirror authority. */
module ProvenanceFacts {
  import opened Basics
  import opened CryptoModel
  import opened Delegation
  import opened Provenance

  /** No record of `a` collides with a different record of `b` under SHA-256. */
  ghost predicate NoCrossCollision(k: Crypto, a: seq<Record>, b: seq<Record>) {
    forall i, j | 0 <= i < |a| && 0 <= j < |b| :: NoCollision(k, RecordBytes(a[i]), RecordBytes(b[j]))
  }

  lemma SameHashSameRecord(k: Crypto, a: Record, b: Record)
    requires NoCollision(k, RecordBytes(a), RecordBytes(b)) && RecordHash(k, a) == RecordHash(k, b)
    ensures a == b
  {
    hide RecordBytes;
    RecordBytesInjective(a, b);
  }

  lemma DagPrefix(k: Crypto, rs: seq<Record>, n: nat)
    requires DagOk(k, rs) && 0 < n <= |rs|
    ensures DagOk(k, rs[..n])
  {
    hide RecordHash;
    forall i | 0 <= i < n
      ensures RecordLinks(k, rs[..n], i)
    {
      assert RecordLinks(k, rs, i);
    }
  }

  /** Two accepted histories whose leaves have the same hash are the same history, field by field. */
  lemma {:induction false} LeafHashFixesHistory(k: Crypto, a: seq<Record>, b: seq<Record>)
    requires DagOk(k, a) && DagOk(k, b) && NoCrossCollision(k, a, b)
    requires RecordHash(k, a[|a| - 1]) == RecordHash(k, b[|b| - 1])
    ensures a == b
    decreases |a|
  {
    hide RecordHash, RecordBytes, NoCollision;
    var x, y := a[|a| - 1], b[|b| - 1];
    assert NoCollision(k, RecordBytes(x), RecordBytes(y));
    SameHashSameRecord(k, x, y);
    assert RecordLinks(k, a, |a| - 1) && RecordLinks(k, b, |b| - 1);
    var a', b' := a[..|a| - 1], b[..|b| - 1];
    assert a == a' + [x] && b == b' + [y];
    if |a| > 1 {
      assert |b| > 1;
      DagPrefix(k, a, |a| - 1);
      DagPrefix(k, b, |b| - 1);
      assert NoCrossCollision(k, a', b');
      LeafHashFixesHistory(k, a', b');
    }
  }

  /** Changing any field of a record that is not the last makes `verify_dag` refuse. */
  lemma TamperingIsDetected(k: Crypto, rs: seq<Record>, i: nat, r: Record)
    requires DagOk(k, rs) && i < |rs| - 1 && r != rs[i]
    requires NoCollision(k, RecordBytes(r), RecordBytes(rs[i]))
    ensures !DagOk(k, rs[i := r])
  {
    hide RecordHash, RecordBytes, NoCollision;
    var t := rs[i := r];
    if DagOk(k, t) {
      assert RecordLinks(k, t, i + 1) && RecordLinks(k, rs, i + 1);
      assert t[i] == r && t[i + 1] == rs[i + 1];
      SameHashSameRecord(k, r, rs[i]);
    }
  }

  // ---------------------------------------------------------------- denials

  /** In an accepted history only the last record can be a denial. */
  lemma DenialIsLast(k: Crypto, rs: seq<Record>, i: nat)
    requires DagOk(k, rs) && i < |rs| - 1
    ensures !Denied(rs[i])
  {
    hide RecordHash;
    assert RecordLinks(k, rs, i + 1);
  }

  lemma {:induction false} HopsOfAllowed(rs: seq<Record>)
    requires forall i | 0 <= i < |rs| :: !Denied(rs[i])
    ensures Hops(rs) == rs
  {
    if rs != [] {
      HopsOfAllowed(rs[..|rs| - 1]);
      assert rs == rs[..|rs| - 1] + [rs[|rs| - 1]];
    }
  }

  /** When both checks accept: at most the last record is a denial, the other records match the
      credentials one to one, and the denial names a credential of the chain with its subject. */
  lemma RecordsMirrorTheChain(k: Crypto, rs: seq<Record>, chain: seq<Credential>)
    requires DagOk(k, rs) && CrossChecks(rs, chain)
    ensures |rs| == |chain| || (|rs| == |chain| + 1 && Denied(rs[|chain|]))
    ensures forall i | 0 <= i < |chain| :: !Denied(rs[i]) && Matches(rs[i], chain[i])
    ensures |rs| == |chain| + 1 ==> exists c :: c in chain && Matches(rs[|chain|], c)
  {
    hide RecordHash, ById;
    forall i | 0 <= i < |rs| - 1
      ensures !Denied(rs[i])
    {
      DenialIsLast(k, rs, i);
    }
    var init, last := rs[..|rs| - 1], rs[|rs| - 1];
    HopsOfAllowed(init);
    if Denied(last) {
      assert Hops(rs) == init;
      assert last in rs;
      assert Matches(last, ById(chain)[last.credentialId]);
    } else {
      assert init + [last] == rs;
    }
  }

  // ---------------------------------------------------------------- emission

  /** `record_for` folded over a chain, each record naming the hash of the one before. */
  function Emit(k: Crypto, chain: seq<Credential>, ids: seq<string>, atts: seq<CallerAttestation>): (rs: seq<Record>)
    requires |ids| == |chain| == |atts|
    ensures |rs| == |chain|
  {
    if chain == [] then []
    else
      var n := |chain| - 1;
      var rs := Emit(k, chain[..n], ids[..n], atts[..n]);
      var parent := if n == 0 then None else Some(RecordHash(k, rs[n - 1]));
      rs + [RecordFor(chain[n], ids[n], parent, atts[n])]
  }

  predicate Distinct(ids: seq<string>) {
    forall i, j | 0 <= i < j < |ids| :: ids[i] != ids[j]
  }

  lemma {:induction false} EmitShape(k: Crypto, chain: seq<Credential>, ids: seq<string>,
                                     atts: seq<CallerAttestation>, i: nat)
    requires |ids| == |chain| == |atts| && i < |chain|
    ensures var rs := Emit(k, chain, ids, atts);
            rs[i] == RecordFor(chain[i], ids[i], if i == 0 then None else Some(RecordHash(k, rs[i - 1])), atts[i])
  {
    hide RecordHash;
    var n := |chain| - 1;
    if i < n {
      EmitShape(k, chain[..n], ids[..n], atts[..n], i);
    }
  }

  /** Emitting along any non-empty chain with distinct record ids always passes both checks. */
  lemma EmitVerifies(k: Crypto, chain: seq<Credential>, ids: seq<string>, atts: seq<CallerAttestation>)
    requires |ids| == |chain| == |atts| && chain != [] && Distinct(ids)
    ensures DagOk(k, Emit(k, chain, ids, atts)) && CrossChecks(Emit(k, chain, ids, atts), chain)
  {
    hide RecordHash, Emit;
    var rs := Emit(k, chain, ids, atts);
    forall i | 0 <= i < |rs|
      ensures rs[i].recordId == ids[i] && !Denied(rs[i]) && Matches(rs[i], chain[i])
      ensures i > 0 ==> rs[i].parentRecordHash == Some(RecordHash(k, rs[i - 1]))
    {
      EmitShape(k, chain, ids, atts, i);
    }
    EmitShape(k, chain, ids, atts, 0);
    assert forall i | 0 <= i < |rs| :: RecordLinks(k, rs, i);
    HopsOfAllowed(rs);
  }
}
