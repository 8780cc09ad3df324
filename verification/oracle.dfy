/** The random source of the transforms, made explicit. The source draws from Python's
    global generator in two ways: `random.random() < P` (a gate) and `random.choice(xs)`
    (a pick). Here the outcomes of those calls are supplied up front as a stream of draws,
    read strictly in the order the code makes the calls. */
module Oracle {

  datatype Draw = Gate(pass: bool) | Pick(index: nat)

  type Stream = seq<Draw>

  /** One draw is consumed, if any is left. */
  function Advance(rng: Stream): (rest: Stream)
    ensures |rng| > 0 ==> rest == rng[1..]
    ensures |rng| == 0 ==> rest == rng
  {
    if |rng| == 0 then rng else rng[1..]
  }

  /** `random.random() < P`: the outcome is the next draw when it is a gate draw; an exhausted
      stream or a pick draw in that place reads as a failed gate. */
  function NextGate(rng: Stream): (bool, Stream)
  {
    (|rng| > 0 && rng[0] == Gate(true), Advance(rng))
  }

  /** `random.choice(xs)` with `|xs| == n`: an index below `n`, taken from the next draw when it
      is a pick draw and 0 otherwise. */
  function NextPick(rng: Stream, n: nat): (res: (nat, Stream))
    requires n > 0
    ensures res.0 < n
  {
    if |rng| > 0 && rng[0].Pick? then (rng[0].index % n, Advance(rng)) else (0, Advance(rng))
  }

  /** A stream none of whose gates passes: what every gate probability set to 0 produces. */
  predicate NoGatePasses(rng: Stream) {
    forall i | 0 <= i < |rng| :: rng[i] != Gate(true)
  }

  lemma AdvanceKeepsNoGatePasses(rng: Stream)
    requires NoGatePasses(rng)
    ensures NoGatePasses(Advance(rng))
  {
    if |rng| > 0 {
      assert forall i | 0 <= i < |rng| - 1 :: rng[1..][i] == rng[i + 1];
    }
  }
}
