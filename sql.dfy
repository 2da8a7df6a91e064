/**
 * The command status text the database driver returns for a DELETE
 * ("DELETE n"), and how the bot reads it back.
 */
module Sql {
  import opened Base
  import opened Text

  /** The number of decimal digits of `n`, at least one. */
  function Width(n: nat): (w: nat)
    ensures w >= 1 && n < Pow10(w)
  {
    if n < 10 then 1 else 1 + Width(n / 10)
  }

  /** `str(n)`. */
  function Decimal(n: nat): string {
    Digits(n, Width(n))
  }

  lemma DecimalValueOf(n: nat)
    ensures AllDigits(Decimal(n)) && |Decimal(n)| > 0
    ensures DecimalValue(Decimal(n)) == n
  {
    DigitsValue(n, Width(n));
  }

  /** The status of a DELETE that removed `n` rows. */
  function DeleteTag(n: nat): string {
    "DELETE " + Decimal(n)
  }

  /** Different counts give different status texts, so comparing to "DELETE 1" tests n == 1. */
  lemma DeleteTagInjective(n: nat, m: nat)
    ensures DeleteTag(n) == DeleteTag(m) <==> n == m
  {
    if DeleteTag(n) == DeleteTag(m) {
      assert Decimal(n) == DeleteTag(n)[7..] == DeleteTag(m)[7..] == Decimal(m);
      DecimalValueOf(n);
      DecimalValueOf(m);
    }
  }

  lemma DeleteTagOne()
    ensures DeleteTag(1) == "DELETE 1"
  {
    assert Decimal(1) == "1";
  }

  /** `int(result.split(" ")[1]) if result else 0`: None where Python raises
      (no second field, or a field int() rejects). */
  function ReportedCount(result: string): Option<int> {
    if result == "" then Some(0)
    else
      var fields := Split(result, ' ');
      if |fields| < 2 then None else PyInt(fields[1])
  }

  /** Reading the count back from a DELETE status gives the number of rows removed. */
  lemma ReportedDeleteCount(n: nat)
    ensures ReportedCount(DeleteTag(n)) == Some(n)
  {
    var ds := Decimal(n);
    DecimalValueOf(n);
    assert ' ' !in ds by {
      assert forall i :: 0 <= i < |ds| ==> IsDigit(ds[i]);
    }
    assert DeleteTag(n) == "DELETE" + [' '] + ds;
    SplitCons("DELETE", ds, ' ');
    SplitNoSep(ds, ' ');
    PyIntDigits(ds);
  }
}
