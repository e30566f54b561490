/** The running-maximum filter: which values of a request stream earn a response. */
module RunningMax {
  import opened Int32

  /** Position `i` holds a new record: a positive value above every earlier value. */
  ghost predicate IsRecord(xs: seq<int32>, i: int)
    requires 0 <= i < |xs|
  {
    xs[i] > 0 && forall j :: 0 <= j < i ==> xs[j] < xs[i]
  }

  /** The records of `xs`, in stream order. */
  ghost function Records(xs: seq<int32>): seq<int32>
  {
    if xs == [] then []
    else
      var n := |xs| - 1;
      Records(xs[..n]) + (if IsRecord(xs, n) then [xs[n]] else [])
  }

  /** The larger of 0 and every value of `xs`. */
  function MaxSoFar(xs: seq<int32>): (m: int32)
    ensures m >= 0
    ensures forall i :: 0 <= i < |xs| ==> xs[i] <= m
    ensures m == 0 || exists i :: 0 <= i < |xs| && xs[i] == m
  {
    if xs == [] then 0
    else
      var n := |xs| - 1;
      var m := MaxSoFar(xs[..n]);
      assert forall i :: 0 <= i < n ==> xs[..n][i] == xs[i];
      if xs[n] > m then xs[n] else m
  }

  /** A value is a record exactly when it exceeds the maximum of 0 and all values before it. */
  lemma RecordIffExceedsMax(xs: seq<int32>, i: int)
    requires 0 <= i < |xs|
    ensures IsRecord(xs, i) <==> xs[i] > MaxSoFar(xs[..i])
  {
    var m := MaxSoFar(xs[..i]);
    assert forall j :: 0 <= j < i ==> xs[..i][j] == xs[j];
    if m != 0 {
      var j :| 0 <= j < i && xs[..i][j] == m;
      assert xs[j] == m;
    }
  }

  /** Every response is a value of the request stream. */
  lemma {:induction false} RecordsFromStream(xs: seq<int32>)
    ensures forall k :: 0 <= k < |Records(xs)| ==> Records(xs)[k] in xs
  {
    if xs != [] {
      var n := |xs| - 1;
      var pre := xs[..n];
      RecordsFromStream(pre);
      assert xs == pre + [xs[n]];
    }
  }

  /** The responses are positive and strictly increasing. */
  lemma {:induction false} RecordsIncreasing(xs: seq<int32>)
    ensures forall k :: 0 <= k < |Records(xs)| ==> Records(xs)[k] > 0
    ensures forall k, l :: 0 <= k < l < |Records(xs)| ==> Records(xs)[k] < Records(xs)[l]
  {
    if xs != [] {
      var n := |xs| - 1;
      var pre := xs[..n];
      RecordsIncreasing(pre);
      if IsRecord(xs, n) {
        RecordsFromStream(pre);
        forall k | 0 <= k < |Records(pre)|
          ensures Records(pre)[k] < xs[n]
        {
          assert Records(pre)[k] in pre;
        }
      }
    }
  }

  /** The last response, if any, is the maximum so far; there is none exactly when no value is positive. */
  lemma {:induction false} LastRecordIsMax(xs: seq<int32>)
    ensures Records(xs) == [] <==> MaxSoFar(xs) == 0
    ensures Records(xs) != [] ==> Records(xs)[|Records(xs)| - 1] == MaxSoFar(xs)
  {
    if xs != [] {
      var n := |xs| - 1;
      LastRecordIsMax(xs[..n]);
      RecordIffExceedsMax(xs, n);
      assert xs[..n + 1] == xs;
    }
  }

  /** Responses already sent are never retracted: the records of a prefix prefix the records of the stream. */
  lemma {:induction false} RecordsOfPrefix(xs: seq<int32>, i: int)
    requires 0 <= i <= |xs|
    ensures Records(xs[..i]) <= Records(xs)
  {
    if i < |xs| {
      var n := |xs| - 1;
      assert xs[..n][..i] == xs[..i];
      RecordsOfPrefix(xs[..n], i);
    } else {
      assert xs[..i] == xs;
    }
  }

  /** The client's example: requests 1, 4, 3, 5 get responses 1, 4, 5. */
  lemma ClientExample()
    ensures Records([1, 4, 3, 5]) == [1, 4, 5]
  {
    var xs: seq<int32> := [1, 4, 3, 5];
    var xs1, xs2, xs3 := xs[..1], xs[..2], xs[..3];
    assert xs1[..0] == [] && xs2[..1] == xs1 && xs3[..2] == xs2 && xs[..3] == xs3;
    assert Records(xs1) == [1] by { assert IsRecord(xs1, 0); }
    assert Records(xs2) == [1, 4] by { assert IsRecord(xs2, 1); }
    assert Records(xs3) == [1, 4] by { assert !IsRecord(xs3, 2) by { assert xs3[1] >= xs3[2]; } }
    assert IsRecord(xs, 3);
  }
}
