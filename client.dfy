/**
 * The client's sender (`send_task` of `run_client`): before each probe the
 * sequence number goes up by one, the probe "PING <seq>" goes to the group,
 * and the sent counter goes up only when the send succeeded. The socket is
 * left out: the outcome of each send is a parameter.
 */
module Client {
  import opened Bytes
  import opened Wrappers

  /** "PING " */
  const PingPrefix: Bytes := [80, 73, 78, 71, 32]

  /** The payload of probe number `n`, `format!("PING {}", n)`. */
  function PingPayload(n: nat): (p: Bytes) {
    PingPrefix + Decimal(n)
  }

  /** The number a probe payload carries, for "PING " followed by digits. */
  function ProbeNumber(p: Bytes): (n: Option<nat>) {
    if |p| > |PingPrefix| && p[..|PingPrefix|] == PingPrefix
       && forall k :: |PingPrefix| <= k < |p| ==> IsDigit(p[k])
    then
      var digits := p[|PingPrefix|..];
      assert forall k :: 0 <= k < |digits| ==> IsDigit(digits[k]) by {
        forall k | 0 <= k < |digits| ensures IsDigit(digits[k]) {
          assert digits[k] == p[k + |PingPrefix|];
        }
      }
      Some(DigitsValue(digits))
    else None
  }

  /** The number of a probe can be read back from its payload. */
  lemma ProbeNumberRoundTrip(n: nat)
    ensures ProbeNumber(PingPayload(n)) == Some(n)
  {
    var p := PingPayload(n);
    DecimalValue(n);
    DecimalShape(n);
    assert p[..|PingPrefix|] == PingPrefix;
    assert p[|PingPrefix|..] == Decimal(n);
    forall k | |PingPrefix| <= k < |p| ensures IsDigit(p[k]) {
      assert p[k] == Decimal(n)[k - |PingPrefix|];
    }
  }

  /** Probes with different numbers have different payloads. */
  lemma PingPayloadInjective(m: nat, n: nat)
    requires m != n
    ensures PingPayload(m) != PingPayload(n)
  {
    ProbeNumberRoundTrip(m);
    ProbeNumberRoundTrip(n);
  }

  /** The sender's state: `seqNo` (the source's `seq`) is the number of the
      last probe and `sent` the number of probes whose send succeeded.
      `Probes` records the payloads of all probes so far, in order. */
  class Sender {
    var seqNo: nat
    var sent: nat
    ghost var Probes: seq<Bytes>

    /** The k-th probe (from 1) carried "PING k", and no more probes were
        counted as sent than were tried. */
    ghost predicate Valid()
      reads this
    {
      sent <= seqNo && |Probes| == seqNo
      && forall k :: 0 <= k < seqNo ==> Probes[k] == PingPayload(k + 1)
    }

    /** `let mut seq: u64 = 0`, and the sent counter starts at 0. */
    constructor ()
      ensures Valid() && seqNo == 0 && sent == 0 && Probes == []
    {
      seqNo := 0;
      sent := 0;
      Probes := [];
    }

    /** One turn of the sender loop; `sendOk` is whether `send_to` succeeded. */
    method Step(sendOk: bool) returns (probe: Bytes)
      requires Valid()
      modifies this
      ensures Valid()
      ensures seqNo == old(seqNo) + 1 && probe == PingPayload(seqNo)
      ensures sent == if sendOk then old(sent) + 1 else old(sent)
      ensures Probes == old(Probes) + [probe]
    {
      seqNo := seqNo + 1;
      probe := PingPayload(seqNo);
      if sendOk {
        sent := sent + 1;
      }
      Probes := Probes + [probe];
    }
  }

  /** The number of successful sends among the outcomes. */
  function CountOk(outcomes: seq<bool>): (r: nat)
    ensures r <= |outcomes|
  {
    if outcomes == [] then 0 else CountOk(outcomes[..|outcomes| - 1]) + (if outcomes[|outcomes| - 1] then 1 else 0)
  }

  /** A run of the sender loop, one probe per send outcome: the k-th probe
      carries "PING k" and the sent counter ends at the number of
      successful sends. */
  method RunSender(outcomes: seq<bool>) returns (probes: seq<Bytes>, sent: nat)
    ensures |probes| == |outcomes|
    ensures forall k :: 0 <= k < |probes| ==> probes[k] == PingPayload(k + 1)
    ensures sent == CountOk(outcomes)
  {
    var sender := new Sender();
    probes := [];
    for i := 0 to |outcomes|
      invariant sender.Valid() && sender.seqNo == i && probes == sender.Probes
      invariant sender.sent == CountOk(outcomes[..i])
    {
      var probe := sender.Step(outcomes[i]);
      probes := probes + [probe];
      assert outcomes[..i + 1][..i] == outcomes[..i];
    }
    assert outcomes[..|outcomes|] == outcomes;
    sent := sender.sent;
  }

  /** The probes of a run carry strictly increasing numbers 1, 2, 3, ..., so
      no two are the same. */
  lemma ProbesIncreasing(probes: seq<Bytes>)
    requires forall k :: 0 <= k < |probes| ==> probes[k] == PingPayload(k + 1)
    ensures forall k :: 0 <= k < |probes| ==> ProbeNumber(probes[k]) == Some(k + 1)
    ensures forall i, j :: 0 <= i < j < |probes| ==> probes[i] != probes[j]
  {
    forall k | 0 <= k < |probes| ensures ProbeNumber(probes[k]) == Some(k + 1) {
      ProbeNumberRoundTrip(k + 1);
    }
    forall i, j | 0 <= i < j < |probes| ensures probes[i] != probes[j] {
      PingPayloadInjective(i + 1, j + 1);
    }
  }
}
