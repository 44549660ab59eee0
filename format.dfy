/** Integer arithmetic of the view: the window of rows drawn around the cursor,
    and the unit chosen to print a byte count. */
module Format {

  /** Rows reserved for the title, path box, status and help lines. */
  const Chrome: int := 14

  /** The smallest window drawn. */
  const MinWindow: int := 5

  /** Rows of the list drawn for a terminal `height` rows tall. */
  function WindowHeight(height: int): (h: int)
    ensures h >= MinWindow
    ensures h == MinWindow || h == height - Chrome
    ensures h >= height - Chrome
  {
    if height - Chrome < MinWindow then MinWindow else height - Chrome
  }

  /** The rows [top, bottom) drawn: centred on the cursor where possible, and
      clamped to the end of the list. */
  function VisibleWindow(height: int, cursor: int, count: nat): (w: (int, int))
    ensures 0 <= w.0 <= w.1 <= count
    ensures w.1 - w.0 == if count < WindowHeight(height) then count else WindowHeight(height)
    ensures 0 <= cursor < count ==> w.0 <= cursor < w.1
  {
    var h := WindowHeight(height);
    var top := if cursor > h / 2 then cursor - h / 2 else 0;
    var bottom := top + h;
    if bottom > count then
      (if count - h > 0 then count - h else 0, count)
    else
      (top, bottom)
  }

  /** The unit letters after K: kilo, mega, giga, tera, peta, exa. */
  const Units: string := "KMGTPE"

  const Unit: int := 1024

  /** Largest value of Go's int64, plus one. */
  const Int64Limit: int := 0x8000_0000_0000_0000

  function Power(base: nat, e: nat): nat
  {
    if e == 0 then 1 else base * Power(base, e - 1)
  }

  lemma {:induction false} PowerMonotone(e: nat, f: nat)
    requires e <= f
    ensures Power(Unit, e) <= Power(Unit, f)
    decreases f
  {
    if e < f {
      PowerMonotone(e, f - 1);
    }
  }

  lemma MulMonotone(x: int, y: int, z: int)
    requires x >= 0 && y <= z
    ensures x * y <= x * z
  {
    assert x * z - x * y == x * (z - y);
  }

  /** One round of formatBytes' loop keeps `n` the quotient of `b` by `div`. */
  lemma {:induction false} QuotientStep(b: int, div: int, n: int)
    requires div > 0 && n >= Unit && div * n <= b < div * (n + 1)
    ensures (div * Unit) * (n / Unit) <= b < (div * Unit) * (n / Unit + 1)
  {
    var q := n / Unit;
    assert Unit * q <= n < Unit * (q + 1);
    MulMonotone(div, Unit * q, n);
    MulMonotone(div, n + 1, Unit * (q + 1));
    assert (div * Unit) * q == div * (Unit * q);
    assert (div * Unit) * (q + 1) == div * (Unit * (q + 1));
  }

  /** How formatBytes prints `b`: as plain bytes, or divided by `div` with the
      unit letter `Units[exp]`. */
  datatype Magnitude = Plain | Scaled(div: int, exp: nat)

  /** The integer part of formatBytes: below 1024 the count is printed in
      bytes; otherwise `div` is the largest power of 1024 not above `b`, and
      for any int64 the unit letter exists. */
  method UnitScale(b: int) returns (m: Magnitude)
    requires b < Int64Limit
    ensures m.Plain? <==> b < Unit
    ensures m.Scaled? ==>
      && m.div == Power(Unit, m.exp + 1)
      && m.div <= b < m.div * Unit
      && m.exp < |Units|
  {
    if b < Unit {
      return Plain;
    }
    var div, exp := Unit, 0;
    var n := b / Unit;
    while n >= Unit
      invariant n >= 1 && div > 0
      invariant div == Power(Unit, exp + 1)
      invariant div * n <= b < div * (n + 1)
      decreases n
    {
      QuotientStep(b, div, n);
      div := div * Unit;
      exp := exp + 1;
      n := n / Unit;
    }
    MulMonotone(div, 1, n);
    MulMonotone(div, n + 1, Unit);
    PowerMonotone(if exp + 1 < 7 then exp + 1 else 7, exp + 1);
    assert Power(Unit, 7) >= Int64Limit;
    m := Scaled(div, exp);
  }
}
