/**
 * The calculator service's handlers. The service struct has no fields, so each handler is a
 * function or method of its request alone. A streaming request is the finite sequence of values
 * the client sends before ending its stream; a streaming response is the sequence of values the
 * handler passes to `Send`, in order, followed by the status the handler returns.
 */
module CalculatorServer {
  import opened Int32
  import opened GrpcStatus
  import Decimal
  import Factorization
  import RunningMax

  datatype SumRequest = SumRequest(value1: int32, value2: int32)
  datatype SumResponse = SumResponse(result: int32)

  datatype SquareRootRequest = SquareRootRequest(number: int32)
  /** A response whose `NumberRoot` is the float64 square root of `radicand`. */
  datatype SquareRootResponse = SquareRootResponse(radicand: int32)

  /** Unary addition: always succeeds, with the int32 sum of the two values. */
  function Sum(req: SumRequest): (r: Outcome<SumResponse>)
    ensures r.Response?
    ensures r.value.result as int == req.value1 as int + req.value2 as int
            <==> InRange(req.value1 as int + req.value2 as int)
    ensures (req.value1 as int + req.value2 as int - r.value.result as int) % Modulus == 0
  {
    Response(SumResponse(Wrap(req.value1 as int + req.value2 as int)))
  }

  /**
   * Server streaming: trial division of `number`, sending each divisor that divides what is left.
   * Sends nothing for a number of 1 or less, and always ends with a nil error.
   */
  method PrimeNumberDecomposition(number: int32) returns (sent: seq<int32>, status: Status)
    ensures AsInts(sent) == Factorization.Factorization(number as int)
    ensures number <= 1 <==> sent == []
    ensures number >= 1 ==> Factorization.Product(AsInts(sent)) == number as int
    ensures forall i :: 0 <= i < |sent| ==> Factorization.IsPrime(sent[i] as int)
    ensures forall i, j :: 0 <= i < j < |sent| ==> sent[i] <= sent[j]
    ensures status == Nil
  {
    var n := number;
    var divisor: int32 := 2;
    sent := [];
    while n > 1
      invariant 2 <= divisor
      invariant n > 1 ==> divisor <= n
      invariant Factorization.NoFactorBelow(n as int, divisor as int)
      invariant AsInts(sent) + Factorization.Factorization(n as int) == Factorization.Factorization(number as int)
      decreases n as int - divisor as int
    {
      if n % divisor == 0 {
        DivideKeepsFactorization(sent, n, divisor, number);
        sent := sent + [divisor];
        n := n / divisor;
      } else {
        assert divisor < n && Factorization.NoFactorBelow(n as int, divisor as int + 1) by {
          Factorization.AdvanceStep(n as int, divisor as int);
        }
        divisor := divisor + 1;
      }
    }
    assert AsInts(sent) == Factorization.Factorization(number as int) by {
      assert Factorization.Factorization(n as int) == [];
    }
    DecompositionFacts(number, sent);
    status := Nil;
  }

  /** A dividing step keeps the values sent plus the factors still to come equal to the factorisation of `number`. */
  lemma DivideKeepsFactorization(sent: seq<int32>, n: int32, divisor: int32, number: int32)
    requires 2 <= divisor && 2 <= n && n % divisor == 0
    requires Factorization.NoFactorBelow(n as int, divisor as int)
    requires AsInts(sent) + Factorization.Factorization(n as int) == Factorization.Factorization(number as int)
    ensures 1 <= n / divisor < n
    ensures Factorization.NoFactorBelow((n / divisor) as int, divisor as int)
    ensures AsInts(sent + [divisor]) + Factorization.Factorization((n / divisor) as int)
            == Factorization.Factorization(number as int)
  {
    Factorization.DivideStep(n as int, divisor as int);
    assert AsInts(sent + [divisor]) == AsInts(sent) + [divisor as int];
  }

  /** Carries the properties of the factorisation of `number` over to the int32 values sent. */
  lemma DecompositionFacts(number: int32, sent: seq<int32>)
    requires AsInts(sent) == Factorization.Factorization(number as int)
    ensures number <= 1 <==> sent == []
    ensures number >= 1 ==> Factorization.Product(AsInts(sent)) == number as int
    ensures forall i :: 0 <= i < |sent| ==> Factorization.IsPrime(sent[i] as int)
    ensures forall i, j :: 0 <= i < j < |sent| ==> sent[i] <= sent[j]
  {
    Factorization.FactorizationFacts(number as int);
    var f := AsInts(sent);
    assert forall i :: 0 <= i < |sent| ==> f[i] == sent[i] as int;
  }

  /**
   * Bidirectional streaming: keeps a running maximum that starts at 0 and sends each received value
   * that exceeds it, and returns a nil error when the client ends its stream.
   */
  method FindMaximum(received: seq<int32>) returns (sent: seq<int32>, status: Status)
    ensures sent == RunningMax.Records(received)
    ensures forall i :: 0 <= i < |sent| ==> sent[i] > 0
    ensures forall i, j :: 0 <= i < j < |sent| ==> sent[i] < sent[j]
    ensures status == Nil
  {
    var maximum: int32 := 0;
    sent := [];
    var i := 0;
    while i < |received|
      invariant 0 <= i <= |received|
      invariant maximum == RunningMax.MaxSoFar(received[..i])
      invariant sent == RunningMax.Records(received[..i])
    {
      var value := received[i];
      RunningMax.RecordIffExceedsMax(received, i);
      assert received[..i + 1][..i] == received[..i];
      if value > maximum {
        maximum := value;
        sent := sent + [value];
      }
      i := i + 1;
    }
    assert received[..i] == received;
    RunningMax.RecordsIncreasing(received);
    status := Nil;
  }

  const NegativeMessagePrefix: string := "Received a negative nubmer: "

  /**
   * Unary square root, validation only: a negative number is refused with InvalidArgument and a
   * message naming it; any other number is answered.
   */
  function SquareRoot(req: SquareRootRequest): (r: Outcome<SquareRootResponse>)
    ensures r.Failure? <==> req.number < 0
    ensures r.Response? ==> r.value.radicand == req.number
    ensures r.Failure? ==> r.status.message == NegativeMessagePrefix + Decimal.IntToString(req.number as int)
    ensures r.Failure? ==>
              && r.status.code == InvalidArgument
              && var msg := r.status.message;
              && |NegativeMessagePrefix| < |msg|
              && msg[..|NegativeMessagePrefix|] == NegativeMessagePrefix
              && Decimal.ParseInt(msg[|NegativeMessagePrefix|..]) == req.number as int
  {
    if req.number < 0 then
      var text := Decimal.IntToString(req.number as int);
      Decimal.IntToStringRoundTrip(req.number as int);
      var msg := NegativeMessagePrefix + text;
      assert msg[|NegativeMessagePrefix|..] == text;
      Failure(Status(InvalidArgument, msg))
    else
      Response(SquareRootResponse(req.number))
  }

  /** The client's request of -9 is refused with InvalidArgument and a message naming -9. */
  lemma ClientNegativeExample()
    ensures SquareRoot(SquareRootRequest(-9)) == Failure(Status(InvalidArgument, "Received a negative nubmer: -9"))
  {
    assert Decimal.IntToString(-9) == "-9";
  }
}
