/**
 The progress lines the loaders' progress callbacks report:
 `Loading <subject>... <loaded>/<total> (<percent>%)`, where the percentage is
 `Math.floor(loaded * 100 / total)`, and the two fixed physics-engine lines.

 Byte counts are natural numbers. JavaScript prints such a number in plain
 decimal, and a zero total (a response of unknown length) makes the quotient
 `Infinity` or `NaN`, which the template prints by name.
 */
module ProgressText {

  /** The value of `Math.floor(loaded * 100 / total)` as the template literal shows it. */
  datatype Percent = Whole(n: nat) | Infinity | NaN

  /** Text slot 2 shows while the physics engine is being instantiated. */
  const PhysicsLoading: string := "Loading physics engine..."

  /** Text slot 2 shows once the physics engine is enabled on the scene. */
  const PhysicsDone: string := "Loading physics engine... Done"

  /** The progress percentage. For a known total it is the floor of the exact
      quotient; for a zero total, JavaScript's `0 / 0` is `NaN` and `x / 0` is `Infinity`. */
  function PercentOf(loaded: nat, total: nat): (p: Percent)
    ensures total > 0 ==> p.Whole? && p.n * total <= loaded * 100 < p.n * total + total
    ensures total == 0 ==> (p == NaN <==> loaded == 0) && (p == Infinity <==> loaded > 0)
  {
    if total == 0 then
      (if loaded == 0 then NaN else Infinity)
    else
      FloorDivLemma(loaded * 100, total);
      Whole(loaded * 100 / total)
  }

  /** Integer division of naturals is the floor of the quotient; `PercentOf`
      uses it to state its result without division. */
  lemma FloorDivLemma(a: nat, b: nat)
    requires b > 0
    ensures (a / b) * b <= a < (a / b) * b + b
  {
  }

  /** While at most all of a known total has arrived, the percentage lies in [0, 100],
      and it is 100 exactly when everything has arrived. */
  lemma PercentBounds(loaded: nat, total: nat)
    requires 0 < total && loaded <= total
    ensures PercentOf(loaded, total).Whole?
    ensures PercentOf(loaded, total).n <= 100
    ensures PercentOf(loaded, total).n == 100 <==> loaded == total
  {
    var p := PercentOf(loaded, total).n;
    MulMono(101, p, total);
    MulMono(100, p, total);
    MulMono(p, 100, total);
    MulMono(p, 99, total);
  }

  /** Multiplying both sides by the same natural keeps an inequality; the
      percentage bounds use it with constant factors around 100. */
  lemma MulMono(a: nat, b: nat, c: nat)
    ensures a <= b ==> a * c <= b * c
  {
  }

  /** The character of a decimal digit. */
  function DigitChar(d: nat): (ch: char)
    requires d < 10
    ensures '0' <= ch <= '9'
  {
    ('0' as int + d) as char
  }

  /** The digit a character stands for. */
  function DigitValue(ch: char): nat
    requires '0' <= ch <= '9'
  {
    ch as int - '0' as int
  }

  /** Every character is a decimal digit. */
  predicate IsDigits(s: string) {
    forall k :: 0 <= k < |s| ==> '0' <= s[k] <= '9'
  }

  /** How JavaScript prints a natural number: decimal, no leading zeros. */
  function Decimal(n: nat): (s: string)
    ensures 0 < |s| && IsDigits(s)
    ensures |s| > 1 ==> s[0] != '0'
    decreases n
  {
    if n < 10 then [DigitChar(n)] else Decimal(n / 10) + [DigitChar(n % 10)]
  }

  /** The number a string of decimal digits denotes. */
  function ValueOf(s: string): nat
    requires IsDigits(s)
    decreases |s|
  {
    if |s| == 0 then 0 else 10 * ValueOf(s[..|s| - 1]) + DigitValue(s[|s| - 1])
  }

  /** Printing a number and reading the digits back gives the number. */
  lemma {:induction false} DecimalReadsBack(n: nat)
    ensures ValueOf(Decimal(n)) == n
    decreases n
  {
    var s := Decimal(n);
    if n >= 10 {
      DecimalReadsBack(n / 10);
      assert s[..|s| - 1] == Decimal(n / 10);
    }
  }

  /** The percentage field as printed. */
  function PercentString(p: Percent): string {
    match p
    case Whole(n) => Decimal(n)
    case Infinity => "Infinity"
    case NaN => "NaN"
  }

  /** The fixed head of a progress line, before the byte counts. */
  function Head(subject: string): string {
    "Loading " + subject + "... "
  }

  /** `Loading <subject>... <loaded>/<total> (<percent>%)`. */
  function ProgressLine(subject: string, loaded: nat, total: nat): string {
    Head(subject) + Decimal(loaded) + "/" + Decimal(total) + " (" + PercentString(PercentOf(loaded, total)) + "%)"
  }

  /** The line the motion loader reports (slot 0). */
  function MotionLine(loaded: nat, total: nat): string {
    ProgressLine("motion", loaded, total)
  }

  /** The line the model loader reports (slot 1). */
  function ModelLine(loaded: nat, total: nat): string {
    ProgressLine("model", loaded, total)
  }

  /** A progress line splits into its head and three digit fields: the first two
      read back as the byte counts, and while at most all of a known total has
      arrived the third reads as a percentage in [0, 100] that is 100 exactly on completion. */
  lemma ProgressLineFields(subject: string, loaded: nat, total: nat)
    requires 0 < total && loaded <= total
    ensures exists a: string, b: string, c: string
              | IsDigits(a) && IsDigits(b) && IsDigits(c) ::
              && ProgressLine(subject, loaded, total) == Head(subject) + a + "/" + b + " (" + c + "%)"
              && ValueOf(a) == loaded && ValueOf(b) == total
              && ValueOf(c) <= 100 && (ValueOf(c) == 100 <==> loaded == total)
  {
    var a, b := Decimal(loaded), Decimal(total);
    PercentBounds(loaded, total);
    var c := Decimal(PercentOf(loaded, total).n);
    DecimalReadsBack(loaded);
    DecimalReadsBack(total);
    DecimalReadsBack(PercentOf(loaded, total).n);
    assert ProgressLine(subject, loaded, total) == Head(subject) + a + "/" + b + " (" + c + "%)";
  }

  /** An unknown total (zero) prints the percentage as `NaN` before any byte
      arrives and as `Infinity` after. */
  lemma UnknownTotal(subject: string, loaded: nat)
    ensures loaded == 0 ==> ProgressLine(subject, loaded, 0)
                            == Head(subject) + "0/0 (NaN%)"
    ensures loaded > 0 ==> ProgressLine(subject, loaded, 0)
                           == Head(subject) + Decimal(loaded) + "/0 (Infinity%)"
  {
  }
}
