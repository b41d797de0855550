/** The client's send loop over an arbitrary sequence of `send` results. */
module SendAll {

  datatype Sent = Accepted(n: nat) | Interrupted | Failed

  /** How much `send` accepts before it fails or accepts nothing; interrupted calls are repeated. */
  function AcceptedBefore(trace: seq<Sent>): nat {
    if trace == [] then 0
    else
      match trace[0]
      case Failed => 0
      case Interrupted => AcceptedBefore(trace[1..])
      case Accepted(n) => if n == 0 then 0 else n + AcceptedBefore(trace[1..])
  }

  /** `wire` is what `send` accepted, in order; a run that the trace cuts off has not succeeded. */
  method SendAll(data: string, trace: seq<Sent>) returns (ok: bool, wire: string)
    ensures wire <= data
    ensures |wire| == if AcceptedBefore(trace) <= |data| then AcceptedBefore(trace) else |data|
    ensures ok <==> wire == data
    ensures ok <==> AcceptedBefore(trace) >= |data|
  {
    var total, i := 0, 0;
    wire := "";
    while total < |data| && i < |trace|
      invariant 0 <= total <= |data| && 0 <= i <= |trace|
      invariant wire == data[..total]
      invariant if total < |data| then AcceptedBefore(trace) == total + AcceptedBefore(trace[i..])
                else AcceptedBefore(trace) >= |data|
      decreases |trace| - i
    {
      var r := trace[i];
      assert trace[i..][1..] == trace[i + 1..];
      i := i + 1;
      if r.Failed? {
        return false, wire;
      }
      if r.Accepted? {
        if r.n == 0 {
          break;
        }
        var n := if r.n <= |data| - total then r.n else |data| - total;
        wire := wire + data[total..total + n];
        total := total + n;
      }
    }
    ok := total == |data|;
  }

  function Sizes(trace: seq<Sent>): nat {
    if trace == [] then 0
    else Sizes(trace[..|trace| - 1]) + match trace[|trace| - 1] case Accepted(n) => n case _ => 0
  }

  predicate Goes(r: Sent) {
    r.Interrupted? || (r.Accepted? && r.n > 0)
  }

  lemma {:induction false} SizesCons(r: Sent, trace: seq<Sent>)
    ensures Sizes([r] + trace) == (match r case Accepted(n) => n case _ => 0) + Sizes(trace)
    decreases |trace|
  {
    var all := [r] + trace;
    if trace == [] {
      assert all[..0] == [];
    } else {
      assert all[..|all| - 1] == [r] + trace[..|trace| - 1];
      SizesCons(r, trace[..|trace| - 1]);
    }
  }

  /** Up to the first failure or empty send, what counts is what each call accepted. */
  lemma {:induction false} AcceptedUntil(goes: seq<Sent>, rest: seq<Sent>)
    requires forall i | 0 <= i < |goes| :: Goes(goes[i])
    requires rest == [] || !Goes(rest[0])
    ensures AcceptedBefore(goes + rest) == Sizes(goes)
    decreases |goes|
  {
    if goes == [] {
      assert goes + rest == rest;
    } else {
      assert (goes + rest)[1..] == goes[1..] + rest && goes == [goes[0]] + goes[1..];
      assert Goes(goes[0]);
      AcceptedUntil(goes[1..], rest);
      SizesCons(goes[0], goes[1..]);
    }
  }
}
