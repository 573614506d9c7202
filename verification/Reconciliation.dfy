/**
 The one-bit hints of ringlwe.go: helpRec and rec, the exact set of values rec decodes
 correctly, and the exact noise tolerance of the pair.
 */
module Reconciliation {

  /** roundToBits: the high half of [0, q) carries a one. */
  predicate HighBit(v: int, q: int) {
    2 * v > q
  }

  /** helpRec: which quarter, in pairs, v falls in. */
  function HelpRec(v: int, q: int): int {
    if 4 * v < q then 0
    else if 2 * v < q then 1
    else if 4 * v < 3 * q then 0
    else 1
  }

  /** The `dist` closure of rec: distance to a target on a circle of length 8q. */
  function TargetDist(v: int, target: int, q: int): int {
    var d := 8 * v - target;
    var a := if d < 0 then -d else d;
    if a > 4 * q then 8 * q - a else a
  }

  function Rec(v: int, hint: int, q: int): int {
    var c0 := if hint == 0 then q else 3 * q;
    var c1 := if hint == 0 then 5 * q else 7 * q;
    if TargetDist(v, c0, q) < TargetDist(v, c1, q) then 0 else 1
  }

  /** Distance between two residues on the circle of length q. */
  function CircDist(v: int, v': int, q: int): int {
    var a := if v < v' then v' - v else v - v';
    if 2 * a > q then q - a else a
  }

  predicate Residue(v: int, q: int) {
    0 <= v < q
  }

  /** The receiver's bit agrees with the sender's. */
  predicate Agrees(v: int, v': int, q: int) {
    Rec(v', HelpRec(v, q), q) == 1 <==> HighBit(v, q)
  }

  /** rec decodes a half circle around each hint's zero target, for every odd q. */
  lemma RecRegion(v: int, hint: int, q: int)
    requires q % 2 == 1 && Residue(v, q)
    ensures hint == 0 ==> (Rec(v, hint, q) == 0 <==> 8 * v < 3 * q || 8 * v > 7 * q)
    ensures hint != 0 ==> (Rec(v, hint, q) == 0 <==> q < 8 * v < 5 * q)
  {
  }

  /** The exact set of receiver values that decode v: a half circle chosen by v's quarter. */
  predicate Decodable(v: int, v': int, q: int) {
    if 4 * v < q then 8 * v' < 3 * q || 8 * v' > 7 * q
    else if 2 * v < q then q < 8 * v' < 5 * q
    else if 4 * v < 3 * q then 3 * q < 8 * v' < 7 * q
    else 8 * v' < q || 8 * v' > 5 * q
  }

  lemma AgreesExactly(v: int, v': int, q: int)
    requires q % 2 == 1 && Residue(v, q) && Residue(v', q)
    ensures Agrees(v, v', q) <==> Decodable(v, v', q)
  {
    RecRegion(v', HelpRec(v, q), q);
  }

  /** Within tolerance, the receiver recovers the sender's bit. */
  lemma WithinTolerance(v: int, v': int, q: int)
    requires q % 2 == 1 && Residue(v, q) && Residue(v', q)
    requires 8 * CircDist(v, v', q) < q
    ensures Agrees(v, v', q)
  {
    RecRegion(v', HelpRec(v, q), q);
  }

  ghost predicate Tolerates(d: int, q: int) {
    forall v, v' :: Residue(v, q) && Residue(v', q) && CircDist(v, v', q) <= d ==> Agrees(v, v', q)
  }

  /** One step beyond an eighth of the circle from 0, the receiver reads a one. */
  lemma FirstFailure(q: int)
    requires q >= 3 && q % 2 == 1
    ensures var v' := q - (q / 8 + 1);
            Residue(0, q) && Residue(v', q) && CircDist(0, v', q) == q / 8 + 1 && !Agrees(0, v', q)
  {
    RecRegion(q - (q / 8 + 1), 0, q);
  }

  /**
   The tolerance is tight: every pair at distance at most d is decoded exactly when 8d < q.
   For the shipped moduli the largest such d is (q - 1) / 8: 960 and 1536.
   */
  lemma ToleranceExact(d: nat, q: int)
    requires q >= 3 && q % 2 == 1
    ensures Tolerates(d, q) <==> 8 * d < q
  {
    if 8 * d < q {
      forall v, v' | Residue(v, q) && Residue(v', q) && CircDist(v, v', q) <= d
        ensures Agrees(v, v', q)
      {
        WithinTolerance(v, v', q);
      }
    } else {
      FirstFailure(q);
    }
  }
}
