/** `refactor` and `reduceModTwo`: the exponent matrix of the smooth
    candidates and its reduction to parities.

    A row is paired with the position of its candidate in the candidate list
    (the source's `Pair<ArrayList<Long>, Integer>`), so that rows can be
    reordered later without losing where they came from. */
module ExponentMatrix {
  import opened Arith
  import opened Residuals

  /** An exponent row and the position of the candidate it describes. */
  type Relation = (seq<int>, int)

  function Power(b: int, e: nat): int {
    if e == 0 then 1 else b * Power(b, e - 1)
  }

  /** The product of `ps[k]^es[k]` over all k. */
  function ProductOfPowers(ps: seq<int>, es: seq<int>): int
    requires |ps| == |es| && forall k :: 0 <= k < |es| ==> es[k] >= 0
  {
    if |ps| == 0 then 1 else Power(ps[0], es[0]) * ProductOfPowers(ps[1..], es[1..])
  }

  /** What `refactor` demands of the primes after the sign column: every one
      is a divisor of at least 2 (with 1 or -1 its division loop would not
      end, with 0 it would throw). */
  predicate DivisorsFromOne(primes: seq<int>) {
    forall k :: 1 <= k < |primes| ==> primes[k] >= 2
  }

  /** The `while (temp % p == 0)` loop of `refactor` counts how often `p`
      divides `n`: `p^m` divides `n` and `p^(m+1)` does not. */
  function Multiplicity(n: nat, p: int): (m: nat)
    requires n >= 1 && p >= 2
    ensures n == Power(p, m) * Strip(n, p)
    ensures n % Power(p, m) == 0 && n % Power(p, m + 1) != 0
    decreases n
  {
    if n % p == 0 then
      DivShrinks(n, p);
      var m := 1 + Multiplicity(n / p, p);
      MultiplicityStep(n, p, m);
      m
    else
      ExactDiv(n, 1, n);
      assert Power(p, 1) == p;
      0
  }

  /** The inductive step of `Multiplicity`: one more factor `p`. */
  lemma MultiplicityStep(n: nat, p: int, m: nat)
    requires n >= 1 && p >= 2 && n % p == 0 && m >= 1
    requires n / p == Power(p, m - 1) * Strip(n / p, p)
    requires (n / p) % Power(p, m) != 0
    ensures n == Power(p, m) * Strip(n, p)
    ensures n % Power(p, m) == 0 && n % Power(p, m + 1) != 0
  {
    var q, s := n / p, Strip(n, p);
    assert s == Strip(q, p);
    ModZero(n, p);
    MulRegroup(p, Power(p, m - 1), s);
    assert n == Power(p, m) * s;
    PowerPositive(p, m);
    ExactDiv(n, Power(p, m), s);
    if n % Power(p, m + 1) == 0 {
      var k := n / Power(p, m + 1);
      ModZero(n, Power(p, m + 1));
      MulRegroup(p, Power(p, m), k);
      assert p * q == p * (Power(p, m) * k);
      MulCancel(p, q, Power(p, m) * k);
      ExactDiv(q, Power(p, m), k);
      assert false;
    }
  }

  lemma {:induction false} PowerPositive(p: int, e: nat)
    requires p >= 1
    ensures Power(p, e) >= 1
  {
    if e > 0 {
      PowerPositive(p, e - 1);
      MulAssoc(p, Power(p, e - 1), 1);
    }
  }

  /** The columns after the sign: the multiplicity of each prime in what
      the earlier primes left, exactly as the source's loop divides `temp`
      prime by prime. */
  function Counts(n: nat, ps: seq<int>): (es: seq<int>)
    requires n >= 1 && forall k :: 0 <= k < |ps| ==> ps[k] >= 2
    ensures |es| == |ps| && forall k :: 0 <= k < |es| ==> es[k] >= 0
    ensures n == ProductOfPowers(ps, es) * StripAll(n, ps)
    ensures forall k :: 0 <= k < |ps| ==>
      StripAll(n, ps[..k]) >= 1 && es[k] == Multiplicity(StripAll(n, ps[..k]), ps[k])
    decreases |ps|
  {
    if |ps| == 0 then
      []
    else
      var m := Multiplicity(n, ps[0]);
      var s := Strip(n, ps[0]);
      StripFacts(n, ps[0]);
      var rest := Counts(s, ps[1..]);
      var es := [m] + rest;
      assert es[1..] == rest;
      MulRegroup(Power(ps[0], m), ProductOfPowers(ps[1..], rest), StripAll(s, ps[1..]));
      StripAllPrefixes(n, ps);
      es
  }

  /** Stripping the first `k` primes is stripping the first one and then
      the next `k - 1`. */
  lemma StripAllPrefixes(n: nat, ps: seq<int>)
    requires |ps| >= 1 && forall k :: 0 <= k < |ps| ==> ps[k] >= 2
    ensures StripAll(n, ps[..0]) == n
    ensures forall k :: 1 <= k <= |ps| ==> StripAll(n, ps[..k]) == StripAll(Strip(n, ps[0]), ps[1..][..k - 1])
  {
    forall k | 1 <= k <= |ps|
      ensures StripAll(n, ps[..k]) == StripAll(Strip(n, ps[0]), ps[1..][..k - 1])
    {
      assert ps[..k][1..] == ps[1..][..k - 1];
    }
  }

  /** One row of `refactor` for a candidate value `x`: column 0 is 1 for a
      negative value and 0 otherwise, column k the exponent of `primes[k]`;
      what the primes leave of |x| times their powers gives back |x|. */
  function ExponentRow(x: int, primes: seq<int>): (row: seq<int>)
    requires x != 0 && DivisorsFromOne(primes) && (x < 0 ==> |primes| >= 1)
    ensures |row| == |primes|
    ensures |primes| >= 1 ==> row[0] == (if x < 0 then 1 else 0)
    ensures forall k :: 0 <= k < |row| ==> row[k] >= 0
    ensures |primes| >= 1 ==> Abs(x) == ProductOfPowers(primes[1..], row[1..]) * StripAll(Abs(x), primes[1..])
    ensures forall k :: 1 <= k < |primes| ==>
      StripAll(Abs(x), primes[1..k]) >= 1 && row[k] == Multiplicity(StripAll(Abs(x), primes[1..k]), primes[k])
  {
    if |primes| == 0 then
      []
    else
      var es := Counts(Abs(x), primes[1..]);
      var row := [if x < 0 then 1 else 0] + es;
      assert row[1..] == es;
      ShiftedColumns(Abs(x), primes, row);
      row
  }

  /** The columns of `Counts` over `primes[1..]`, read one place to the
      right. */
  lemma ShiftedColumns(n: nat, primes: seq<int>, row: seq<int>)
    requires n >= 1 && |primes| >= 1 && DivisorsFromOne(primes)
    requires |row| == |primes| && row[1..] == Counts(n, primes[1..])
    ensures forall k :: 1 <= k < |primes| ==>
      StripAll(n, primes[1..k]) >= 1 && row[k] == Multiplicity(StripAll(n, primes[1..k]), primes[k])
  {
    var es := Counts(n, primes[1..]);
    forall k | 1 <= k < |primes|
      ensures StripAll(n, primes[1..k]) >= 1 && row[k] == Multiplicity(StripAll(n, primes[1..k]), primes[k])
    {
      assert primes[1..][..k - 1] == primes[1..k];
      assert row[k] == es[k - 1];
    }
  }

  /** Each column is fixed, not just the product: over a base
      [-1, p, q] the value p^m gets [0, m, 0], the whole exponent going to
      `p` because it is divided out first. With q = p^2 this holds even
      though p^(m-2) * q is the same number (for 16 over [-1, 2, 4]:
      [0, 4, 0], not [0, 2, 1]). */
  lemma PowerRowColumns(primes: seq<int>, m: nat)
    requires |primes| == 3 && primes[0] == -1 && DivisorsFromOne(primes)
    ensures Power(primes[1], m) >= 1
    ensures ExponentRow(Power(primes[1], m), primes) == [0, m, 0]
  {
    MultiplicityOfPower(primes[1], m);
    RowOfPower(primes, Power(primes[1], m));
  }

  /** A value the first prime divides down to 1 has a row whose only
      non-zero column is that prime's. */
  lemma RowOfPower(primes: seq<int>, x: int)
    requires |primes| == 3 && primes[0] == -1 && DivisorsFromOne(primes)
    requires x >= 1 && Strip(x, primes[1]) == 1
    ensures ExponentRow(x, primes) == [0, Multiplicity(x, primes[1]), 0]
  {
    FirstColumns(x, primes);
    var row := ExponentRow(x, primes);
    assert |row| == 3 && row[0] == 0;
    assert row[2] == Multiplicity(1, primes[2]) == 0;
  }

  /** Columns 1 and 2 of a row: the multiplicity of the first prime in
      the value, and of the second in what the first left. */
  lemma FirstColumns(x: int, primes: seq<int>)
    requires x >= 1 && |primes| == 3 && DivisorsFromOne(primes)
    ensures Strip(x, primes[1]) >= 1
    ensures ExponentRow(x, primes)[1] == Multiplicity(x, primes[1])
    ensures ExponentRow(x, primes)[2] == Multiplicity(Strip(x, primes[1]), primes[2])
  {
    StripFacts(x, primes[1]);
    assert primes[1..1] == [] && primes[1..2] == [primes[1]];
    assert StripAll(x, primes[1..2]) == StripAll(Strip(x, primes[1]), []);
  }

  /** The loop divides a power of `p` down to 1, counting its exponent. */
  lemma {:induction false} MultiplicityOfPower(p: int, m: nat)
    requires p >= 2
    ensures Power(p, m) >= 1
    ensures Multiplicity(Power(p, m), p) == m && Strip(Power(p, m), p) == 1
  {
    PowerPositive(p, m);
    if m > 0 {
      MultiplicityOfPower(p, m - 1);
      var n := Power(p, m);
      ExactDiv(n, p, Power(p, m - 1));
      assert Multiplicity(n, p) == 1 + Multiplicity(n / p, p);
    }
  }

  /** What `refactor` needs of its arguments: every candidate it keeps is
      non-zero (the division loop never ends on 0) and a negative one has a
      sign column to mark. */
  predicate Refactorable(residues: seq<int>, original: seq<int>, primes: seq<int>) {
    && |original| >= |residues|
    && DivisorsFromOne(primes)
    && forall i :: 0 <= i < |residues| && residues[i] == 1 ==>
         original[i] != 0 && (original[i] < 0 ==> |primes| >= 1)
  }

  /** The candidate positions a list of rows is tagged with. */
  function Tags(rows: seq<Relation>): set<int> {
    set r | 0 <= r < |rows| :: rows[r].1
  }

  /** The positions whose residue is 1, i.e. the smooth candidates. */
  function SmoothPositions(residues: seq<int>): set<int> {
    set k | 0 <= k < |residues| && residues[k] == 1
  }

  lemma TagsAppend(rows: seq<Relation>, row: Relation)
    ensures Tags(rows + [row]) == Tags(rows) + {row.1}
  {
    var all := rows + [row];
    assert all[|rows|] == row;
    forall t | t in Tags(rows)
      ensures t in Tags(all)
    {
      var r :| 0 <= r < |rows| && rows[r].1 == t;
      assert all[r].1 == t;
    }
  }

  lemma SmoothPositionsPrefix(residues: seq<int>)
    requires |residues| > 0
    ensures var i := |residues| - 1;
      SmoothPositions(residues) ==
        SmoothPositions(residues[..i]) + (if residues[i] == 1 then {i} else {})
  {
  }

  /** `refactor`: one row for every candidate whose residue is 1, in
      candidate order, tagged with the candidate's position. */
  function Refactor(residues: seq<int>, original: seq<int>, primes: seq<int>): (rows: seq<Relation>)
    requires Refactorable(residues, original, primes)
    ensures forall r :: 0 <= r < |rows| ==>
      && 0 <= rows[r].1 < |residues|
      && residues[rows[r].1] == 1
      && rows[r].0 == ExponentRow(original[rows[r].1], primes)
    ensures forall a, b :: 0 <= a < b < |rows| ==> rows[a].1 < rows[b].1
    ensures Tags(rows) == SmoothPositions(residues)
    decreases |residues|
  {
    if |residues| == 0 then
      []
    else
      var i := |residues| - 1;
      var init := Refactor(residues[..i], original, primes);
      SmoothPositionsPrefix(residues);
      if residues[i] == 1 then
        var row := (ExponentRow(original[i], primes), i);
        TagsAppend(init, row);
        init + [row]
      else
        init
  }

  function Sign(bit: int): int {
    if bit == 1 then -1 else 1
  }

  /** The identity the matrix exists for: when the residues are those
      `calcResiduals` computed on the same factor base, every row read as
      (-1)^row[0] times the product of primes[k]^row[k] gives back its
      candidate value. */
  lemma RefactorReconstructs(original: seq<int>, primes: seq<int>)
    requires |primes| >= 1 && primes[0] == -1 && DivisorsFromOne(primes)
    requires Refactorable(CalcResiduals(primes, original), original, primes)
    ensures forall r :: 0 <= r < |Refactor(CalcResiduals(primes, original), original, primes)| ==>
      var row := Refactor(CalcResiduals(primes, original), original, primes)[r];
      |row.0| == |primes| && row.0[0] in {0, 1} &&
      Sign(row.0[0]) * ProductOfPowers(primes[1..], row.0[1..]) == original[row.1]
  {
    var residues := CalcResiduals(primes, original);
    var rows := Refactor(residues, original, primes);
    forall r | 0 <= r < |rows|
      ensures |rows[r].0| == |primes| && rows[r].0[0] in {0, 1}
      ensures Sign(rows[r].0[0]) * ProductOfPowers(primes[1..], rows[r].0[1..]) == original[rows[r].1]
    {
      RowReconstructs(original[rows[r].1], primes, rows[r].0);
    }
  }

  /** One row of `RefactorReconstructs`: a candidate whose residual is 1
      is the signed product of the powers in its exponent row. */
  lemma RowReconstructs(x: int, primes: seq<int>, row: seq<int>)
    requires |primes| >= 1 && primes[0] == -1 && DivisorsFromOne(primes)
    requires x != 0 && Residual(x, primes) == 1 && row == ExponentRow(x, primes)
    ensures |row| == |primes| && row[0] in {0, 1}
    ensures Sign(row[0]) * ProductOfPowers(primes[1..], row[1..]) == x
  {
    JavaStripAllMagnitude(x, primes);
    assert StripAll(Abs(x), primes) == StripAll(Abs(x), primes[1..]);
    var product := ProductOfPowers(primes[1..], row[1..]);
    assert Abs(x) == product * 1;
    if x < 0 {
      assert Sign(row[0]) == -1;
    } else {
      assert Sign(row[0]) == 1;
    }
  }

  /** An entry of `reduceModTwo`: Java's `e % 2`, which keeps the parity of
      `e`, lies in -1..1 and takes the sign of `e`. */
  predicate IsParityOf(b: int, e: int) {
    && -1 <= b <= 1
    && (e - b) % 2 == 0
    && (e >= 0 ==> b >= 0)
    && (e < 0 ==> b <= 0)
  }

  lemma JavaRemTwo(e: int)
    ensures IsParityOf(JavaRem(e, 2), e)
  {
    var b := JavaRem(e, 2);
    assert e == 2 * JavaDiv(e, 2) + b;
    ExactDiv(e - b, 2, JavaDiv(e, 2));
  }

  lemma AllParities()
    ensures forall e: int :: IsParityOf(JavaRem(e, 2), e)
  {
    forall e: int
      ensures IsParityOf(JavaRem(e, 2), e)
    {
      JavaRemTwo(e);
    }
  }

  /** `reduceModTwo`: every exponent replaced by `e % 2`; order, tags and
      row widths are kept. */
  function ReduceModTwo(matrix: seq<Relation>): (out: seq<Relation>)
    ensures |out| == |matrix|
    ensures forall r :: 0 <= r < |out| ==> out[r].1 == matrix[r].1 && |out[r].0| == |matrix[r].0|
    ensures forall r, c :: 0 <= r < |out| && 0 <= c < |out[r].0| ==> IsParityOf(out[r].0[c], matrix[r].0[c])
  {
    AllParities();
    seq(|matrix|, r requires 0 <= r < |matrix| =>
      (seq(|matrix[r].0|, c requires 0 <= c < |matrix[r].0| => JavaRem(matrix[r].0[c], 2)), matrix[r].1))
  }

  /** Reducing twice is reducing once: every reduced entry is already its
      own remainder. */
  lemma ReduceModTwoIdempotent(matrix: seq<Relation>)
    ensures ReduceModTwo(ReduceModTwo(matrix)) == ReduceModTwo(matrix)
  {
    var once := ReduceModTwo(matrix);
    var twice := ReduceModTwo(once);
    forall r | 0 <= r < |twice|
      ensures twice[r] == once[r]
    {
      forall c | 0 <= c < |twice[r].0|
        ensures twice[r].0[c] == once[r].0[c]
      {
        var b := once[r].0[c];
        assert -1 <= b <= 1;
        assert JavaRem(b, 2) == b;
      }
      assert twice[r].0 == once[r].0;
    }
  }

  /** The matrix `refactor` builds has non-negative exponents, so after
      `reduceModTwo` every entry is 0 or 1: the parity of its exponent. */
  lemma ParityMatrixIsBinary(residues: seq<int>, original: seq<int>, primes: seq<int>)
    requires Refactorable(residues, original, primes)
    ensures var rows := Refactor(residues, original, primes);
      forall r, c :: 0 <= r < |rows| && 0 <= c < |rows[r].0| ==>
        var b := ReduceModTwo(rows)[r].0[c];
        (b == 0 || b == 1) && (rows[r].0[c] - b) % 2 == 0
  {
  }
}
