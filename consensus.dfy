/**
 * The consensus rule of resolve_conflicts as a function of the peers' answers: scan the
 * answers in iteration order, keep the running maximum length (initially the local
 * chain's length), and adopt every chain that is valid and reports a length strictly
 * greater than that maximum. A failed request, or an empty chain that reaches the
 * validity check, raises and aborts the whole scan.
 */
module Consensus {
  import opened Wrappers
  import opened Blocks

  /** A peer address after normalisation (the `netloc` of the registered URL). */
  type Address = string

  /** What fetching `http://<peer>/chain` gives: a 200 answer with the reported length and
      chain, another status code (skipped), or an exception (connection error, a body
      that is not the expected JSON), which propagates. */
  datatype PeerResponse = Answer(length: int, chain: Chain) | BadStatus | RequestFailed

  /** The loop's variables: `max_length` and `new_chain`. */
  datatype ScanState = ScanState(maxLength: int, newChain: Option<Chain>)

  /** `order` lists every registered peer exactly once: an iteration order of the set. */
  ghost predicate EnumeratesPeers(order: seq<Address>, nodes: set<Address>) {
    (forall a :: a in order <==> a in nodes) &&
    forall i, j | 0 <= i < j < |order| :: order[i] != order[j]
  }

  /** The answers of the peers, in iteration order. */
  function Responses(order: seq<Address>, fetch: Address -> PeerResponse): seq<PeerResponse> {
    seq(|order|, i requires 0 <= i < |order| => fetch(order[i]))
  }

  /** One iteration of the loop. The validity check runs only when the reported length
      beats the running maximum; on an empty chain it raises. */
  function Step(hash: HashFn, validProof: ProofFn, st: ScanState, r: PeerResponse): Result<ScanState, Fault> {
    match r
    case RequestFailed => Err(PeerRequestFailed)
    case BadStatus => Ok(st)
    case Answer(length, chain) =>
      if length <= st.maxLength then Ok(st)
      else if chain == [] then Err(EmptyChain)
      else if IsValidChain(hash, validProof, chain) then Ok(ScanState(length, Some(chain)))
      else Ok(st)
  }

  /** The whole loop over the answers, starting from the local chain's length. */
  function Scan(hash: HashFn, validProof: ProofFn, localLength: int, rs: seq<PeerResponse>): Result<ScanState, Fault>
    decreases |rs|
  {
    if rs == [] then Ok(ScanState(localLength, None))
    else
      match Scan(hash, validProof, localLength, rs[..|rs| - 1])
      case Err(e) => Err(e)
      case Ok(st) => Step(hash, validProof, st, rs[|rs| - 1])
  }

  /** An answer that could be adopted if long enough: a non-empty valid chain. */
  predicate Qualifies(hash: HashFn, validProof: ProofFn, r: PeerResponse) {
    r.Answer? && r.chain != [] && IsValidChain(hash, validProof, r.chain)
  }

  /** Answer `k` is the one adopted with length `m`: it qualifies, reports `m` > the local
      length, and no earlier qualifying answer reached `m` (ties do not replace). */
  predicate AdoptedAt(hash: HashFn, validProof: ProofFn, localLength: int, rs: seq<PeerResponse>,
                      k: int, m: int, chain: Chain)
  {
    0 <= k < |rs| && rs[k] == Answer(m, chain) && Qualifies(hash, validProof, rs[k]) &&
    m > localLength &&
    forall j | 0 <= j < k :: Qualifies(hash, validProof, rs[j]) ==> rs[j].length < m
  }

  /** Once the scan of a prefix has raised, the whole scan raises the same fault. */
  lemma {:induction false} ScanErrorPersists(hash: HashFn, validProof: ProofFn, localLength: int,
                                             rs: seq<PeerResponse>, i: nat)
    requires i <= |rs|
    requires Scan(hash, validProof, localLength, rs[..i]).Err?
    ensures Scan(hash, validProof, localLength, rs) == Scan(hash, validProof, localLength, rs[..i])
  {
    if i < |rs| {
      var prefix := rs[..|rs| - 1];
      assert prefix[..i] == rs[..i];
      ScanErrorPersists(hash, validProof, localLength, prefix, i);
    } else {
      assert rs[..i] == rs;
    }
  }

  /** The outcome of a scan that does not raise: the final maximum is at least the local
      length and at least every qualifying answer's length; no chain is adopted exactly
      when the maximum stayed at the local length; an adopted chain is that of the first
      qualifying answer reporting the final maximum. */
  lemma {:induction false} ScanOutcome(hash: HashFn, validProof: ProofFn, localLength: int, rs: seq<PeerResponse>)
    requires Scan(hash, validProof, localLength, rs).Ok?
    ensures var st := Scan(hash, validProof, localLength, rs).value;
      && st.maxLength >= localLength
      && (forall j | 0 <= j < |rs| :: Qualifies(hash, validProof, rs[j]) ==> rs[j].length <= st.maxLength)
      && (st.newChain.None? <==> st.maxLength == localLength)
      && (st.newChain.Some? ==>
            exists k :: AdoptedAt(hash, validProof, localLength, rs, k, st.maxLength, st.newChain.value))
  {
    if rs != [] {
      var n := |rs|;
      var prefix := rs[..n - 1];
      var last := rs[n - 1];
      ScanOutcome(hash, validProof, localLength, prefix);
      var before := Scan(hash, validProof, localLength, prefix).value;
      var st := Scan(hash, validProof, localLength, rs).value;
      assert Scan(hash, validProof, localLength, rs) == Step(hash, validProof, before, last);
      forall j | 0 <= j < n - 1
        ensures rs[j] == prefix[j]
      {
      }
      if Qualifies(hash, validProof, last) && last.length > before.maxLength {
        assert st == ScanState(last.length, Some(last.chain));
        assert AdoptedAt(hash, validProof, localLength, rs, n - 1, st.maxLength, last.chain);
      } else {
        assert st == before;
        if st.newChain.Some? {
          var k :| AdoptedAt(hash, validProof, localLength, prefix, k, st.maxLength, st.newChain.value);
          assert AdoptedAt(hash, validProof, localLength, rs, k, st.maxLength, st.newChain.value);
        }
      }
    }
  }

  /** resolve_conflicts replaces the chain only with a non-empty valid chain whose reported
      length beats the local length, and keeps it when no qualifying answer does. */
  lemma ReplacedOnlyByLongerValidChain(hash: HashFn, validProof: ProofFn, localLength: int, rs: seq<PeerResponse>)
    requires Scan(hash, validProof, localLength, rs).Ok?
    ensures var st := Scan(hash, validProof, localLength, rs).value;
      (st.newChain.Some? ==>
         st.newChain.value != [] && IsValidChain(hash, validProof, st.newChain.value) &&
         exists k | 0 <= k < |rs| :: rs[k] == Answer(st.maxLength, st.newChain.value) && st.maxLength > localLength) &&
      (st.newChain.None? <==>
         forall j | 0 <= j < |rs| :: Qualifies(hash, validProof, rs[j]) ==> rs[j].length <= localLength)
  {
    ScanOutcome(hash, validProof, localLength, rs);
    var st := Scan(hash, validProof, localLength, rs).value;
    if st.newChain.Some? {
      var k :| AdoptedAt(hash, validProof, localLength, rs, k, st.maxLength, st.newChain.value);
      assert rs[k] == Answer(st.maxLength, st.newChain.value) && Qualifies(hash, validProof, rs[k]);
    }
  }

  /** When exactly one answer qualifies with a length beyond the local one, its chain is
      the one adopted. */
  lemma SoleLongerPeerAdopted(hash: HashFn, validProof: ProofFn, localLength: int, rs: seq<PeerResponse>, k: nat)
    requires Scan(hash, validProof, localLength, rs).Ok?
    requires k < |rs| && Qualifies(hash, validProof, rs[k]) && rs[k].length > localLength
    requires forall j | 0 <= j < |rs| && j != k :: !(Qualifies(hash, validProof, rs[j]) && rs[j].length > localLength)
    ensures Scan(hash, validProof, localLength, rs) == Ok(ScanState(rs[k].length, Some(rs[k].chain)))
  {
    ScanOutcome(hash, validProof, localLength, rs);
    var st := Scan(hash, validProof, localLength, rs).value;
    assert st.newChain.Some?;
    var a :| AdoptedAt(hash, validProof, localLength, rs, a, st.maxLength, st.newChain.value);
    assert a == k;
  }

  /** Ties never replace: an answer reporting exactly the running maximum leaves the
      state as it was. */
  lemma TieKeepsState(hash: HashFn, validProof: ProofFn, st: ScanState, chain: Chain)
    ensures Step(hash, validProof, st, Answer(st.maxLength, chain)) == Ok(st)
  {
  }

  /** If every peer reports its chain's true length (as the /chain route does), an adopted
      chain is strictly longer than the local one. */
  lemma HonestPeersGiveLongerChain(hash: HashFn, validProof: ProofFn, localLength: int, rs: seq<PeerResponse>)
    requires Scan(hash, validProof, localLength, rs).Ok?
    requires forall j | 0 <= j < |rs| :: rs[j].Answer? ==> rs[j].length == |rs[j].chain|
    ensures var st := Scan(hash, validProof, localLength, rs).value;
      st.newChain.Some? ==> |st.newChain.value| > localLength
  {
    ScanOutcome(hash, validProof, localLength, rs);
    var st := Scan(hash, validProof, localLength, rs).value;
    if st.newChain.Some? {
      var k :| AdoptedAt(hash, validProof, localLength, rs, k, st.maxLength, st.newChain.value);
      assert rs[k].length == |rs[k].chain|;
    }
  }

  /** A single failed request aborts the whole scan. */
  lemma {:induction false} FailedRequestAborts(hash: HashFn, validProof: ProofFn, localLength: int,
                                                 rs: seq<PeerResponse>, k: nat)
    requires k < |rs| && rs[k].RequestFailed?
    ensures Scan(hash, validProof, localLength, rs).Err?
  {
    var prefix := rs[..|rs| - 1];
    if k == |rs| - 1 {
    } else {
      assert prefix[k] == rs[k];
      FailedRequestAborts(hash, validProof, localLength, prefix, k);
    }
  }

  /** A scan raises only when some request failed, or some answer carried an empty chain
      and reported a length beating the running maximum at that point (only then does the
      validity check index the chain). */
  lemma {:induction false} ScanErrorCause(hash: HashFn, validProof: ProofFn, localLength: int, rs: seq<PeerResponse>)
    requires Scan(hash, validProof, localLength, rs).Err?
    ensures exists j | 0 <= j < |rs| ::
      Scan(hash, validProof, localLength, rs[..j]).Ok? &&
      (rs[j].RequestFailed? ||
       (rs[j].Answer? && rs[j].chain == [] &&
        rs[j].length > Scan(hash, validProof, localLength, rs[..j]).value.maxLength))
  {
    var n := |rs|;
    var prefix := rs[..n - 1];
    if Scan(hash, validProof, localLength, prefix).Err? {
      ScanErrorCause(hash, validProof, localLength, prefix);
      var j :| 0 <= j < |prefix| &&
        Scan(hash, validProof, localLength, prefix[..j]).Ok? &&
        (prefix[j].RequestFailed? ||
         (prefix[j].Answer? && prefix[j].chain == [] &&
          prefix[j].length > Scan(hash, validProof, localLength, prefix[..j]).value.maxLength));
      assert rs[j] == prefix[j] && rs[..j] == prefix[..j];
    } else {
      assert rs[..n - 1] == prefix;
    }
  }

  /** One more answer after a scan that has not raised: a failed request raises; a
      non-200 status, or a reported length not beating the maximum, leaves the state;
      otherwise an empty chain raises, a valid chain is adopted with its reported length,
      and an invalid one is ignored. */
  lemma ScanNextAnswer(hash: HashFn, validProof: ProofFn, localLength: int, rs: seq<PeerResponse>, r: PeerResponse)
    requires Scan(hash, validProof, localLength, rs).Ok?
    ensures var st := Scan(hash, validProof, localLength, rs).value;
      Scan(hash, validProof, localLength, rs + [r]) ==
        if r.RequestFailed? then Err(PeerRequestFailed)
        else if r.BadStatus? || r.length <= st.maxLength then Ok(st)
        else if r.chain == [] then Err(EmptyChain)
        else if IsValidChain(hash, validProof, r.chain) then Ok(ScanState(r.length, Some(r.chain)))
        else Ok(st)
  {
    assert (rs + [r])[..|rs|] == rs;
  }
}
