/**
 * Study instance UIDs: the older controller names a study `studyPrefix + studyId`, with the
 * id written in decimal as Java's string concatenation does.
 */
module StudyUid {

  predicate IsDigit(c: char) {
    '0' <= c <= '9'
  }

  function DigitChar(d: nat): (c: char)
    requires d < 10
    ensures IsDigit(c)
  {
    ('0' as int + d) as char
  }

  function DigitValue(c: char): (d: nat)
    requires IsDigit(c)
    ensures d < 10
  {
    (c as int - '0' as int) as nat
  }

  /** Decimal text of `n`, most significant digit first, without leading zeros. */
  function Decimal(n: nat): (s: string)
    ensures |s| >= 1 && forall i :: 0 <= i < |s| ==> IsDigit(s[i])
  {
    if n < 10 then [DigitChar(n)] else Decimal(n / 10) + [DigitChar(n % 10)]
  }

  /** Value of a string of decimal digits. */
  function ParseDecimal(s: string): (n: nat)
    requires forall i :: 0 <= i < |s| ==> IsDigit(s[i])
  {
    if s == [] then 0 else 10 * ParseDecimal(s[..|s| - 1]) + DigitValue(s[|s| - 1])
  }

  /** Reading the decimal text back gives the number. */
  lemma {:induction false} ParseDecimalOfDecimal(n: nat)
    ensures ParseDecimal(Decimal(n)) == n
  {
    var s := Decimal(n);
    if n < 10 {
      assert s[..0] == [];
    } else {
      ParseDecimalOfDecimal(n / 10);
      assert s[..|s| - 1] == Decimal(n / 10);
    }
  }

  function StudyInstanceUid(studyPrefix: string, studyId: nat): (uid: string)
    ensures |uid| > |studyPrefix| && uid[..|studyPrefix|] == studyPrefix
  {
    studyPrefix + Decimal(studyId)
  }

  /** Under one prefix, different studies never share a UID. */
  lemma StudyInstanceUidInjective(studyPrefix: string, a: nat, b: nat)
    requires StudyInstanceUid(studyPrefix, a) == StudyInstanceUid(studyPrefix, b)
    ensures a == b
  {
    var n := |studyPrefix|;
    assert StudyInstanceUid(studyPrefix, a)[n..] == Decimal(a);
    assert StudyInstanceUid(studyPrefix, b)[n..] == Decimal(b);
    ParseDecimalOfDecimal(a);
    ParseDecimalOfDecimal(b);
  }
}
