/**
  Path loss of a link from transmit power and received signal strength, sampled at different times.
 */
module PathLoss {
  datatype Sample = Sample(time: int, value: int)

  // What the two-pointer walk over two lists collects
  function Merge(txPower: seq<Sample>, rssi: seq<Sample>, powerOf: map<int, real>): map<int, real>
    decreases |txPower| + |rssi|
  {
    if txPower == [] || rssi == [] then map[]
    else if txPower[0].time > rssi[0].time then Merge(txPower, rssi[1..], powerOf)
    else if txPower[0].time < rssi[0].time then Merge(txPower[1..], rssi, powerOf)
    else
      var rest := Merge(txPower[1..], rssi[1..], powerOf);
      if txPower[0].value !in powerOf then rest
      else map[txPower[0].time := powerOf[txPower[0].value] - rssi[0].value as real] + rest
  }

  method CalculatePathLoss(txPower: seq<Sample>, rssi: seq<Sample>, powerOf: map<int, real>)
    returns (pathLoss: map<int, real>)
    ensures pathLoss == Merge(txPower, rssi, powerOf)
  {
    pathLoss := map[];
    var i, j := 0, 0;
    while i < |txPower| && j < |rssi|
      invariant 0 <= i <= |txPower| && 0 <= j <= |rssi|
      invariant pathLoss + Merge(txPower[i..], rssi[j..], powerOf) == Merge(txPower, rssi, powerOf)
      decreases |txPower| - i + |rssi| - j
    {
      assert txPower[i..][1..] == txPower[i + 1..] && rssi[j..][1..] == rssi[j + 1..];
      var tx, rx := txPower[i], rssi[j];
      if tx.time > rx.time {
        j := j + 1;
        continue;
      }
      if tx.time < rx.time {
        i := i + 1;
        continue;
      }
      i, j := i + 1, j + 1;
      if tx.value !in powerOf {
        continue;
      }
      pathLoss := pathLoss[tx.time := powerOf[tx.value] - rx.value as real];
    }
  }

  // ---------- the nested-loop join ----------

  predicate Increasing(s: seq<Sample>) {
    forall i, j :: 0 <= i < j < |s| ==> s[i].time < s[j].time
  }

  // A transmit sample with a known power and a received sample of the same time
  predicate Pair(tx: Sample, rx: Sample, powerOf: map<int, real>) {
    tx.time == rx.time && tx.value in powerOf
  }

  ghost predicate IsJoin(txPower: seq<Sample>, rssi: seq<Sample>, powerOf: map<int, real>, m: map<int, real>) {
    && (forall t :: t in m ==> exists tx, rx :: tx in txPower && rx in rssi && Pair(tx, rx, powerOf) && tx.time == t)
    && (forall tx, rx :: tx in txPower && rx in rssi && Pair(tx, rx, powerOf) ==>
          tx.time in m && m[tx.time] == powerOf[tx.value] - rx.value as real)
  }

  // A first sample without a partner does not matter
  lemma SkipRx(txPower: seq<Sample>, rssi: seq<Sample>, powerOf: map<int, real>, m: map<int, real>)
    requires rssi != [] && forall tx :: tx in txPower ==> tx.time != rssi[0].time
    requires IsJoin(txPower, rssi[1..], powerOf, m)
    ensures IsJoin(txPower, rssi, powerOf, m)
  {
    assert rssi == [rssi[0]] + rssi[1..];
  }

  lemma SkipTx(txPower: seq<Sample>, rssi: seq<Sample>, powerOf: map<int, real>, m: map<int, real>)
    requires txPower != [] && forall rx :: rx in rssi ==> !Pair(txPower[0], rx, powerOf)
    requires IsJoin(txPower[1..], rssi, powerOf, m)
    ensures IsJoin(txPower, rssi, powerOf, m)
  {
    assert txPower == [txPower[0]] + txPower[1..];
  }

  lemma Match(txPower: seq<Sample>, rssi: seq<Sample>, powerOf: map<int, real>, rest: map<int, real>)
    requires txPower != [] && rssi != [] && Pair(txPower[0], rssi[0], powerOf)
    requires forall tx :: tx in txPower[1..] ==> tx.time != txPower[0].time
    requires forall rx :: rx in rssi[1..] ==> rx.time != txPower[0].time
    requires IsJoin(txPower[1..], rssi[1..], powerOf, rest)
    ensures IsJoin(txPower, rssi, powerOf,
                   map[txPower[0].time := powerOf[txPower[0].value] - rssi[0].value as real] + rest)
  {
    var tx, rx := txPower[0], rssi[0];
    assert txPower == [tx] + txPower[1..] && rssi == [rx] + rssi[1..];
    var m := map[tx.time := powerOf[tx.value] - rx.value as real] + rest;
    forall t | t in m
      ensures exists a, b :: a in txPower && b in rssi && Pair(a, b, powerOf) && a.time == t
    {
      if t in rest {
        var a, b :| a in txPower[1..] && b in rssi[1..] && Pair(a, b, powerOf) && a.time == t;
        assert a in txPower && b in rssi;
      } else {
        assert tx in txPower && rx in rssi;
      }
    }
  }

  lemma {:induction false} MergeIsJoin(txPower: seq<Sample>, rssi: seq<Sample>, powerOf: map<int, real>)
    requires Increasing(txPower) && Increasing(rssi)
    ensures IsJoin(txPower, rssi, powerOf, Merge(txPower, rssi, powerOf))
    decreases |txPower| + |rssi|
  {
    if txPower != [] && rssi != [] {
      var tx, rx := txPower[0], rssi[0];
      if tx.time > rx.time {
        MergeIsJoin(txPower, rssi[1..], powerOf);
        SkipRx(txPower, rssi, powerOf, Merge(txPower, rssi[1..], powerOf));
      } else if tx.time < rx.time {
        MergeIsJoin(txPower[1..], rssi, powerOf);
        SkipTx(txPower, rssi, powerOf, Merge(txPower[1..], rssi, powerOf));
      } else {
        var rest := Merge(txPower[1..], rssi[1..], powerOf);
        MergeIsJoin(txPower[1..], rssi[1..], powerOf);
        if tx.value in powerOf {
          Match(txPower, rssi, powerOf, rest);
        } else {
          SkipRx(txPower[1..], rssi, powerOf, rest);
          SkipTx(txPower, rssi, powerOf, rest);
        }
      }
    }
  }
}
