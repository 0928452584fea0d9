/** One counter of the 8253 timer (src/8253.h): programming, counting and reading,
    and its output over whole runs in modes 0 and 3. */
module Timer {
  import opened Words
  import opened Numbers

  datatype Counter = Counter(latchValue: int, writeState: int, latchMode: int, out: int, value: int, mode: int,
                             lsb: Byte, msb: Byte, loadValue: Word, armed: bool, load: bool, enabled: bool, bcd: bool,
                             delay: nat)

  function Modulus(c: Counter): int { if c.bcd then 10000 else 0x10000 }

  function Reload(c: Counter): int { if c.loadValue == 0 then Modulus(c) else c.loadValue }

  // ---- one count ----

  function CountMode0(c: Counter): Counter
  {
    var d := if c.load then c.(value := c.loadValue, enabled := true, armed := true, out := 0) else c;
    if !d.enabled then d
    else
      var v := d.value - 1;
      if v > 0 then d.(value := v)
      else d.(value := v + Modulus(c), armed := false, out := if d.armed && d.value != 0 then 1 else d.out)
  }

  function CountMode1(c: Counter): Counter
  {
    var d := if !c.enabled && c.load then c.(enabled := true) else c;
    if !d.enabled then d
    else
      var v := d.value - 1;
      d.(value := if v > 0 then v else v + if c.loadValue == 0 then Modulus(c) else c.loadValue + 1)
  }

  function Started(c: Counter): Counter
  {
    if !c.enabled && c.load then c.(value := c.loadValue, enabled := true) else c
  }

  function CountMode2(c: Counter): Counter
  {
    var d := Started(c);
    if !d.enabled then d
    else
      var v := d.value - 1;
      d.(value := if v > 0 then v else v + Reload(c))
  }

  /** How much one count takes off in mode 3. */
  function Decrement(d: Counter): int
  {
    if d.value == d.loadValue && d.value % 2 == 1 then (if d.out == 0 then 3 else 1) else 2
  }

  function CountMode3(c: Counter): Counter
  {
    var d := Started(c);
    if !d.enabled then d
    else
      var v := d.value - Decrement(d);
      if v > 0 then d.(value := v) else d.(value := v + Reload(c), out := 1 - d.out)
  }

  function CountOnce(c: Counter): Counter
  {
    if c.delay > 0 then c.(delay := c.delay - 1)
    else if !c.enabled && !c.load then c
    else
      (match c.mode
       case 0 => CountMode0(c)
       case 1 => CountMode1(c)
       case 2 => CountMode2(c)
       case 3 => CountMode3(c)
       case _ => c).(load := false)
  }

  /** What Count returns; the output, except that mode 0 started with 0 returns 2 once. */
  function ResultOf(c: Counter): int
  {
    if c.delay > 0 || (!c.enabled && !c.load) then c.out
    else if c.mode == 0 then
      var value := if c.load then c.loadValue else c.value;
      if (c.load || c.armed) && value - 1 <= 0 then 2 - value else if c.load then 0 else c.out
    else CountOnce(c).out
  }

  lemma ResultIsOutput(c: Counter)
    requires c.mode == 0 && c.load ==> c.loadValue >= 1
    requires c.mode == 0 && !c.load && c.armed ==> c.value >= 1
    ensures ResultOf(c) == CountOnce(c).out
  {
  }

  function Counts(c: Counter, k: nat): Counter { if k == 0 then c else CountOnce(Counts(c, k - 1)) }

  // ---- programming ----

  function SetModeOf(c: Counter, newMode: nat, latchMode: int, bcd: bool): Counter
  {
    var d := CountOnce(c);
    var m := if newMode % 4 == 2 then 2 else if newMode % 4 == 3 then 3 else newMode;
    d.(delay := 1, bcd := bcd, mode := m, out := if m == 0 then 0 else 1, enabled := false,
       armed := if m == 0 || m == 1 then true else d.armed, load := false, latchMode := latchMode, writeState := 0)
  }

  function Digit(x: Word, i: nat): int
    requires i < 4
  {
    match i
    case 0 => x / 4096
    case 1 => x / 256 % 16
    case 2 => x / 16 % 16
    case _ => x % 16
  }

  function AtMost9(d: int): int { if d > 9 then 9 else d }

  /** Four decimal digits, those above nine read as nine. */
  function FromBcdOf(x: Word): (r: int)
    ensures 0 <= r < 10000
  {
    1000 * AtMost9(Digit(x, 0)) + 100 * AtMost9(Digit(x, 1)) + 10 * AtMost9(Digit(x, 2)) + AtMost9(Digit(x, 3))
  }

  function Loaded(c: Counter): Counter
  {
    if !c.load then c
    else c.(loadValue := if c.bcd then FromBcdOf(c.loadValue) else c.loadValue,
            delay := if c.mode == 0 then 3 else if 1 <= c.mode <= 3 then (if c.enabled then c.delay else 3) else 4)
  }

  function WriteValueOf(c: Counter, w: Byte): Counter
  {
    Loaded(
      if c.latchMode == 3 then
        (if c.writeState == 0 then c.(lsb := w, writeState := 1)
         else if c.writeState == 1 then c.(msb := w, writeState := 0, loadValue := Pair(w, c.lsb), load := true)
         else c)
      else if c.latchMode == 1 then c.(loadValue := w, load := true)
      else if c.latchMode == 2 then
        var v: Word := Pair(w, 0); c.(value := v, loadValue := v, load := true)
      else c)
  }

  function LatchOf(c: Counter): Counter
  {
    var d := CountOnce(c);
    d.(delay := 1, latchValue := d.value)
  }

  // ---- BCD ----

  /** The low four decimal digits, one per nibble. */
  function ToBcdOf(x: nat): (r: int)
    ensures 0 <= r < 65536
  {
    x % 10 + 16 * (x / 10 % 10) + 256 * (x / 100 % 10) + 4096 * (x / 1000 % 10)
  }

  method ToBcd(x0: Word) returns (r: int)
    ensures r == ToBcdOf(x0)
  {
    var x: nat := x0;
    r := 0;
    var scale := 1;
    for i := 0 to 4
      invariant scale == (if i == 0 then 1 else if i == 1 then 16 else if i == 2 then 256
                          else if i == 3 then 4096 else 65536)
      invariant x == (if i == 0 then x0 else if i == 1 then x0 / 10 else if i == 2 then x0 / 100
                      else if i == 3 then x0 / 1000 else x0 / 10000)
      invariant i == 0 ==> r == 0
      invariant i == 1 ==> r == x0 % 10
      invariant i == 2 ==> r == x0 % 10 + 16 * (x0 / 10 % 10)
      invariant i == 3 ==> r == x0 % 10 + 16 * (x0 / 10 % 10) + 256 * (x0 / 100 % 10)
      invariant i == 4 ==> r == ToBcdOf(x0)
    {
      r := r + x % 10 * scale;
      x := x / 10;
      scale := scale * 16;
    }
  }

  lemma Digits(x: Word)
    ensures x == 4096 * Digit(x, 0) + 256 * Digit(x, 1) + 16 * Digit(x, 2) + Digit(x, 3)
    ensures forall i: nat | i < 4 :: 0 <= Digit(x, i) < 16
  {
    assert x / 256 == 16 * (x / 4096) + x / 256 % 16;
    assert x / 16 == 16 * (x / 256) + x / 16 % 16;
  }

  function TopDigit(x: nat): nat { x / 4096 % 16 }

  function ShiftedDigit(x: nat): nat { x * 16 % 65536 }

  lemma ShiftOut(digit: nat, rest: nat)
    requires digit < 16 && rest < 4096
    ensures TopDigit(4096 * digit + rest) == digit && ShiftedDigit(4096 * digit + rest) == 16 * rest
  {
    DivUnique(4096 * digit + rest, 4096, digit, rest);
    DivUnique(digit, 16, 0, digit);
    DivUnique((4096 * digit + rest) * 16, 65536, digit, 16 * rest);
  }

  /** The register and the value after i digits have been shifted out. */
  ghost function DigitsLeft(x: Word, i: nat): nat
    requires i <= 4
  {
    match i
    case 0 => x
    case 1 => 4096 * Digit(x, 1) + (256 * Digit(x, 2) + 16 * Digit(x, 3))
    case 2 => 4096 * Digit(x, 2) + 256 * Digit(x, 3)
    case 3 => 4096 * Digit(x, 3)
    case _ => 0
  }

  ghost function DigitsRead(x: Word, i: nat): int
    requires i <= 4
  {
    if i == 0 then 0 else 10 * DigitsRead(x, i - 1) + AtMost9(Digit(x, i - 1))
  }

  lemma DigitStep(x: Word, i: nat)
    requires i < 4
    ensures TopDigit(DigitsLeft(x, i)) == Digit(x, i) && ShiftedDigit(DigitsLeft(x, i)) == DigitsLeft(x, i + 1)
  {
    Digits(x);
    hide Digit, TopDigit, ShiftedDigit;
    var b, c, d := Digit(x, 1), Digit(x, 2), Digit(x, 3);
    ShiftOut(Digit(x, i), if i == 0 then 256 * b + 16 * c + d else if i == 1 then 256 * c + 16 * d
                          else if i == 2 then 256 * d else 0);
  }

  lemma AllRead(x: Word)
    ensures DigitsRead(x, 4) == FromBcdOf(x)
  {
    hide Digit, AtMost9;
    assert DigitsRead(x, 1) == AtMost9(Digit(x, 0)) && DigitsRead(x, 2) == 10 * DigitsRead(x, 1) + AtMost9(Digit(x, 1));
    assert DigitsRead(x, 3) == 10 * DigitsRead(x, 2) + AtMost9(Digit(x, 2));
  }

  method FromBcd(x0: Word) returns (r: int)
    ensures r == FromBcdOf(x0)
  {
    hide Digit, AtMost9, TopDigit, ShiftedDigit, DigitsLeft;
    var x: nat := x0;
    r := 0;
    assert x == DigitsLeft(x0, 0) by { NoneLeftOut(x0); }
    for i := 0 to 4
      invariant x == DigitsLeft(x0, i) && r == DigitsRead(x0, i)
    {
      DigitStep(x0, i);
      r := r * 10 + AtMost9(TopDigit(x));
      x := ShiftedDigit(x);
    }
    AllRead(x0);
  }

  lemma NoneLeftOut(x: Word)
    ensures DigitsLeft(x, 0) == x
  {
  }

  lemma DigitsOf(a: nat, b: nat, c: nat, d: nat)
    requires a < 16 && b < 16 && c < 16 && d < 16
    ensures var x: Word := 4096 * a + 256 * b + 16 * c + d;
            Digit(x, 0) == a && Digit(x, 1) == b && Digit(x, 2) == c && Digit(x, 3) == d
  {
    var x := 4096 * a + 256 * b + 16 * c + d;
    assert x / 16 == 256 * a + 16 * b + c;
    assert x / 256 == 16 * a + b;
  }

  lemma Decimal(x: nat)
    requires x < 10000
    ensures x == 1000 * (x / 1000 % 10) + 100 * (x / 100 % 10) + 10 * (x / 10 % 10) + x % 10
  {
    var u := x / 10;
    var v := u / 10;
    assert x / 100 == v && x / 1000 == v / 10;
    assert x == 10 * u + x % 10 && u == 10 * v + u % 10 && v == 10 * (v / 10) + v % 10;
  }

  lemma BcdRoundTrip(x: nat)
    requires x < 10000
    ensures FromBcdOf(ToBcdOf(x)) == x
  {
    hide Digit;
    Decimal(x);
    DigitsOf(x / 1000 % 10, x / 100 % 10, x / 10 % 10, x % 10);
  }

  // ---- mode 3 over whole runs ----

  function CeilHalf(n: nat): nat { (n + 1) / 2 }

  /** Freshly loaded in mode 3 with divisor n, or reloaded at the end of a period. */
  predicate AtPeriodStart(c: Counter, n: nat)
  {
    c.mode == 3 && c.delay == 0 && c.loadValue == n && c.out == 1
    && ((c.enabled && !c.load && c.value == n) || (!c.enabled && c.load))
  }

  /** The wave p counts after a period start, 0 < p <= n. */
  predicate InPeriod(c: Counter, n: nat, p: nat)
  {
    && c.mode == 3 && c.delay == 0 && c.loadValue == n && c.enabled && !c.load
    && (if p < CeilHalf(n) then c.out == 1 && c.value == n + n % 2 - 2 * p
        else if p == CeilHalf(n) then c.out == 0 && c.value == n
        else if p < n then c.out == 0 && c.value == 2 * (n - p)
        else c.out == 1 && c.value == n)
  }

  lemma PeriodBegins(c: Counter, n: nat)
    requires 2 <= n < 65536 && AtPeriodStart(c, n)
    ensures InPeriod(CountOnce(c), n, 1)
  {
  }

  lemma PeriodStep(c: Counter, n: nat, p: nat)
    requires 2 <= n < 65536 && 0 < p < n && InPeriod(c, n, p)
    ensures InPeriod(CountOnce(c), n, p + 1)
  {
  }

  lemma {:induction false} Period(c: Counter, n: nat, p: nat)
    requires 2 <= n < 65536 && AtPeriodStart(c, n) && 0 < p <= n
    ensures InPeriod(Counts(c, p), n, p)
  {
    hide CountOnce, InPeriod;
    if p == 1 {
      PeriodBegins(c, n);
      assert Counts(c, 0) == c;
    } else {
      Period(c, n, p - 1);
      PeriodStep(Counts(c, p - 1), n, p - 1);
    }
  }

  lemma {:induction false} CountsAdd(c: Counter, j: nat, k: nat)
    ensures Counts(c, j + k) == Counts(Counts(c, j), k)
  {
    hide CountOnce;
    if k > 0 {
      CountsAdd(c, j, k - 1);
    }
  }

  /** In mode 3 the output is high for ceil(n/2) counts and low for the rest of each n, forever. */
  lemma {:induction false} SquareWave(c: Counter, n: nat, k: nat)
    requires 2 <= n < 65536 && AtPeriodStart(c, n)
    ensures Counts(c, k).out == if k % n < CeilHalf(n) then 1 else 0
    decreases k
  {
    hide CountOnce, Counts, InPeriod, AtPeriodStart;
    if k == 0 {
      NoCounts(c);
      StartsHigh(c, n);
    } else if k < n {
      Period(c, n, k);
      WaveIn(Counts(c, k), n, k);
      Small(k, n);
    } else {
      Period(c, n, n);
      var d := Counts(c, n);
      WaveIn(d, n, n);
      SquareWave(d, n, k - n);
      CountsAdd(c, n, k - n);
      ModMinus(k, n);
    }
  }

  lemma StartsHigh(c: Counter, n: nat)
    requires 2 <= n && AtPeriodStart(c, n)
    ensures c.out == 1 && 0 % n == 0 && CeilHalf(n) > 0
  {
  }

  lemma Small(k: nat, n: nat)
    requires k < n
    ensures k % n == k
  {
  }

  /** The output within a period, and the state at its end. */
  lemma WaveIn(c: Counter, n: nat, p: nat)
    requires 2 <= n && 0 < p <= n && InPeriod(c, n, p)
    ensures p < n ==> c.out == if p < CeilHalf(n) then 1 else 0
    ensures p == n ==> AtPeriodStart(c, n)
  {
  }

  lemma NoCounts(c: Counter)
    ensures Counts(c, 0) == c
  {
  }

  lemma ModMinus(k: nat, n: nat)
    requires 0 < n <= k
    ensures k % n == (k - n) % n
  {
    assert k - n == n * (k / n - 1) + k % n;
    DivUnique(k - n, n, k / n - 1, k % n);
  }

  /** So it changes exactly at ceil(n/2), n, n + ceil(n/2), 2n, ... */
  lemma Toggles(c: Counter, n: nat, k: nat)
    requires 2 <= n < 65536 && AtPeriodStart(c, n) && k > 0
    ensures Counts(c, k).out != Counts(c, k - 1).out <==> k % n == 0 || k % n == CeilHalf(n)
  {
    hide CountOnce, Counts, AtPeriodStart;
    SquareWave(c, n, k);
    SquareWave(c, n, k - 1);
    if k % n == 0 {
      assert (k - 1) % n == n - 1 by { ModBefore(k, n); }
    } else {
      assert (k - 1) % n == k % n - 1 by { ModBefore(k, n); }
    }
  }

  lemma ModBefore(k: nat, n: nat)
    requires n > 0 && k > 0
    ensures (k - 1) % n == if k % n == 0 then n - 1 else k % n - 1
  {
    var q, r := k / n, k % n;
    assert k == n * q + r;
    if r == 0 {
      assert k - 1 == n * (q - 1) + (n - 1);
      DivUnique(k - 1, n, q - 1, n - 1);
    } else {
      DivUnique(k - 1, n, q, r - 1);
    }
  }

  // ---- mode 0 over whole runs ----

  predicate JustWritten(c: Counter, n: nat) { c.mode == 0 && c.delay == 0 && c.load && c.loadValue == n }

  /** k effective counts after loading n. */
  predicate Counting(c: Counter, n: nat, k: nat)
  {
    && c.mode == 0 && c.delay == 0 && c.loadValue == n && c.enabled && !c.load
    && 1 <= c.value <= Modulus(c)
    && (k < n ==> c.armed && c.out == 0 && c.value == n - k)
    && (k >= n ==> !c.armed && c.out == if n >= 1 then 1 else 0)
    && (c.value - (n - k)) % Modulus(c) == 0
  }

  lemma CountingStep(c: Counter, n: nat, k: nat)
    requires n < 65536 && k > 0 && Counting(c, n, k) && n <= Modulus(c)
    ensures Counting(CountOnce(c), n, k + 1) && Modulus(CountOnce(c)) == Modulus(c)
  {
    var m := Modulus(c);
    if c.value == 1 {
      var q := (c.value - (n - k)) / m;
      assert c.value - (n - k) == m * q;
      assert m - (n - (k + 1)) == m * (q + 1);
      DivUnique(m - (n - (k + 1)), m, q + 1, 0);
    }
  }

  /** The output of mode 0 rises at the n-th effective count and stays up; with n = 0 it never rises. */
  lemma {:induction false} TerminalCount(c: Counter, n: nat, k: nat)
    requires n < 65536 && k > 0 && JustWritten(c, n) && n <= Modulus(c)
    ensures Counting(Counts(c, k), n, k) && Modulus(Counts(c, k)) == Modulus(c)
    ensures Counts(c, k).out == if 1 <= n <= k then 1 else 0
  {
    hide CountOnce, Counting;
    if k == 1 {
      NoCounts(c);
      FirstCount(c, n);
    } else {
      TerminalCount(c, n, k - 1);
      CountingStep(Counts(c, k - 1), n, k - 1);
    }
    assert Counts(c, k).out == if 1 <= n <= k then 1 else 0 by { CountingOut(Counts(c, k), n, k); }
  }

  lemma CountingOut(c: Counter, n: nat, k: nat)
    requires Counting(c, n, k)
    ensures c.out == if 1 <= n <= k then 1 else 0
  {
  }

  lemma FirstCount(c: Counter, n: nat)
    requires n < 65536 && JustWritten(c, n) && n <= Modulus(c)
    ensures Counting(CountOnce(c), n, 1) && Modulus(CountOnce(c)) == Modulus(c)
  {
  }

  // ---- programming a counter ----

  /** A counter that is not running only lets its delay run out. */
  lemma {:induction false} IdleCounts(c: Counter, k: nat)
    requires !c.enabled && !c.load
    ensures Counts(c, k) == c.(delay := if k < c.delay then c.delay - k else 0)
  {
    if k > 0 {
      IdleCounts(c, k - 1);
    }
  }

  lemma {:induction false} DelayCounts(c: Counter, k: nat)
    requires k <= c.delay
    ensures Counts(c, k) == c.(delay := c.delay - k)
  {
    if k > 0 {
      DelayCounts(c, k - 1);
    }
  }

  /** Control word, low byte, high byte, with any counts in between: after three more counts the
      counter is ready to run with the divisor that was written. */
  lemma Programmed(c: Counter, mode: nat, bcd: bool, i: nat, lo: Byte, j: nat, hi: Byte)
    requires mode < 4
    ensures var d := Counts(WriteValueOf(Counts(WriteValueOf(Counts(SetModeOf(c, mode, 3, bcd), i), lo), j), hi), 3);
            && d.mode == mode && d.delay == 0 && d.load && !d.enabled && d.bcd == bcd
            && d.out == (if mode == 0 then 0 else 1)
            && d.loadValue == (if bcd then FromBcdOf(Pair(hi, lo)) else Pair(hi, lo))
  {
    hide FromBcdOf, Counts, CountOnce;
    var c1 := SetModeOf(c, mode, 3, bcd);
    IdleCounts(c1, i);
    var c2 := WriteValueOf(Counts(c1, i), lo);
    IdleCounts(c2, j);
    var c3 := WriteValueOf(Counts(c2, j), hi);
    DelayCounts(c3, 3);
  }

  /** The three writes, any counts between them, then k counts. */
  function Run(c: Counter, mode: nat, bcd: bool, i: nat, lo: Byte, j: nat, hi: Byte, k: nat): Counter
  {
    Counts(WriteValueOf(Counts(WriteValueOf(Counts(SetModeOf(c, mode, 3, bcd), i), lo), j), hi), k)
  }

  function Divisor(bcd: bool, lo: Byte, hi: Byte): nat { if bcd then FromBcdOf(Pair(hi, lo)) else Pair(hi, lo) }

  /** From any state: programmed as a square wave, the output follows it from the fourth count on. */
  lemma ProgrammedSquareWave(c: Counter, bcd: bool, i: nat, lo: Byte, j: nat, hi: Byte, k: nat)
    requires Divisor(bcd, lo, hi) >= 2
    ensures var n := Divisor(bcd, lo, hi);
            Run(c, 3, bcd, i, lo, j, hi, 3 + k).out == if k % n < CeilHalf(n) then 1 else 0
  {
    hide Counts, CountOnce, FromBcdOf, SetModeOf, WriteValueOf;
    Programmed(c, 3, bcd, i, lo, j, hi);
    var w := WriteValueOf(Counts(WriteValueOf(Counts(SetModeOf(c, 3, 3, bcd), i), lo), j), hi);
    CountsAdd(w, 3, k);
    SquareWave(Counts(w, 3), Divisor(bcd, lo, hi), k);
  }

  /** Programmed for one interrupt, the output rises with the n-th count after the delay, unless n is 0. */
  lemma ProgrammedTerminalCount(c: Counter, bcd: bool, i: nat, lo: Byte, j: nat, hi: Byte, k: nat)
    ensures var n := Divisor(bcd, lo, hi);
            Run(c, 0, bcd, i, lo, j, hi, 3 + k).out == if 1 <= n <= k then 1 else 0
  {
    hide Counts, CountOnce, FromBcdOf, SetModeOf, WriteValueOf;
    Programmed(c, 0, bcd, i, lo, j, hi);
    var w := WriteValueOf(Counts(WriteValueOf(Counts(SetModeOf(c, 0, 3, bcd), i), lo), j), hi);
    CountsAdd(w, 3, k);
    if k == 0 {
      NoCounts(Counts(w, 3));
    } else {
      TerminalCount(Counts(w, 3), Divisor(bcd, lo, hi), k);
    }
  }

  /** Latching freezes what is read, however long the counter runs on: low byte, then high byte. */
  function ReadValueOf(c: Counter): (Counter, int)
  {
    var raw := if c.latchValue != -1 then c.latchValue else c.value;
    var v := if c.bcd then ToBcdOf(ToWord(raw)) else raw;
    match c.latchMode
    case 1 => (c.(latchValue := -1), v % 256)
    case 2 => (c.(latchValue := -1), v / 256 % 256)
    case 3 => (match c.writeState
               case 0 => (c.(writeState := 1), v % 256)
               case 1 => (c.(latchValue := -1, writeState := 0), v / 256 % 256)
               case _ => (c, v))
    case _ => (c, 0)
  }

  /** The fields a count leaves alone. */
  predicate SameLatch(c: Counter, d: Counter)
  {
    d.latchValue == c.latchValue && d.writeState == c.writeState && d.latchMode == c.latchMode && d.bcd == c.bcd
  }

  lemma ModesKeepLatch(c: Counter)
    ensures SameLatch(c, CountMode0(c)) && SameLatch(c, CountMode1(c))
  {
    hide Modulus, Reload, Decrement;
  }

  lemma WavesKeepLatch(c: Counter)
    ensures SameLatch(c, CountMode2(c)) && SameLatch(c, CountMode3(c))
  {
    hide Modulus, Reload, Decrement;
  }

  lemma CountKeepsLatch(c: Counter)
    ensures SameLatch(c, CountOnce(c))
  {
    hide CountMode0, CountMode1, CountMode2, CountMode3;
    ModesKeepLatch(c);
    WavesKeepLatch(c);
  }

  lemma {:induction false} CountsKeepLatch(c: Counter, k: nat)
    ensures SameLatch(c, Counts(c, k))
  {
    hide CountOnce;
    if k > 0 {
      CountsKeepLatch(c, k - 1);
      CountKeepsLatch(Counts(c, k - 1));
    }
  }

  lemma LatchedRead(c: Counter, i: nat, j: nat)
    requires c.latchMode == 3 && c.writeState == 0 && CountOnce(c).value >= 0
    ensures var d := Counts(LatchOf(c), i);
            var first := ReadValueOf(d);
            var second := ReadValueOf(Counts(first.0, j));
            var v := CountOnce(c).value;
            var shown := if c.bcd then ToBcdOf(ToWord(v)) else v;
            first.1 + 256 * second.1 == shown % 65536 && second.0.latchValue == -1
  {
    hide Counts, ToBcdOf;
    CountsKeepLatch(c, 1);
    assert Counts(c, 1) == CountOnce(c) by { OneCount(c); }
    hide CountOnce;
    CountsKeepLatch(LatchOf(c), i);
    var first := ReadValueOf(Counts(LatchOf(c), i));
    CountsKeepLatch(first.0, j);
    var v := CountOnce(c).value;
    var shown := if c.bcd then ToBcdOf(ToWord(v)) else v;
    TwoBytes(shown);
  }

  lemma TwoBytes(n: nat)
    ensures n % 65536 == n % 256 + 256 * (n / 256 % 256)
  {
    DivUnique(n, 65536, n / 256 / 256, n % 256 + 256 * (n / 256 % 256));
  }

  lemma OneCount(c: Counter)
    ensures Counts(c, 1) == CountOnce(c)
  {
    NoCounts(c);
  }

  // ---- the object ----

  class CounterUnit {
    var latchValue: int
    var writeState: int
    var latchMode: int
    var out: int
    var value: int
    var mode: int
    var lsb: Byte
    var msb: Byte
    var loadValue: Word
    var armed: bool
    var load: bool
    var enabled: bool
    var bcd: bool
    var delay: nat

    function Abs(): Counter
      reads this
    {
      Counter(latchValue, writeState, latchMode, out, value, mode, lsb, msb, loadValue, armed, load, enabled, bcd,
        delay)
    }

    method Count() returns (result: int)
      modifies this
      ensures Abs() == CountOnce(old(Abs())) && result == ResultOf(old(Abs()))
    {
      if delay > 0 {
        delay := delay - 1;
        return out;
      }
      if !enabled && !load {
        return out;
      }
      match mode {
        case 0 => result := Count0();
        case 1 => result := out; Count1();
        case 2 => result := out; Count2();
        case 3 => Count3(); result := out;
        case _ => result := out;
      }
      load := false;
    }

    /** Interrupt on terminal count. */
    method Count0() returns (result: int)
      requires mode == 0 && delay == 0 && (enabled || load)
      modifies this
      ensures Abs() == CountMode0(old(Abs())) && result == ResultOf(old(Abs()))
    {
      result := out;
      if load {
        value, enabled, armed, out, result := loadValue, true, true, 0, 0;
      }
      if enabled {
        var previous := value;
        value := value - 1;
        if value <= 0 {
          if armed {
            if previous != 0 { out := 1; }
            result := -value + 1;
            armed := false;
          }
          value := value + if bcd then 10000 else 65536;
        }
      }
    }

    /** Programmable one-shot. */
    method Count1()
      modifies this
      ensures Abs() == CountMode1(old(Abs())) && out == old(out)
    {
      if !enabled && load {
        enabled := true;
      }
      if enabled {
        value := value - 1;
        if value <= 0 {
          var reload: int := if loadValue == 0 then (if bcd then 10000 else 0x10000) else loadValue + 1;
          value := value + reload;
        }
      }
    }

    /** Rate generator. */
    method Count2()
      modifies this
      ensures Abs() == CountMode2(old(Abs())) && out == old(out)
    {
      if !enabled && load {
        value, enabled := loadValue, true;
      }
      if enabled {
        value := value - 1;
        if value <= 0 {
          var reload: int := if loadValue == 0 then (if bcd then 10000 else 0x10000) else loadValue;
          value := value + reload;
        }
      }
    }

    /** Square wave generator. */
    method Count3()
      modifies this
      ensures Abs() == CountMode3(old(Abs()))
    {
      if !enabled && load {
        value, enabled := loadValue, true;
      }
      if enabled {
        value := value - if value == loadValue && value % 2 == 1 then (if out == 0 then 3 else 1) else 2;
        if value <= 0 {
          out := 1 - out;
          var reload: int := if loadValue == 0 then (if bcd then 10000 else 0x10000) else loadValue;
          value := value + reload;
        }
      }
    }

    method SetMode(newMode: nat, newLatchMode: int, newBcd: bool)
      modifies this
      ensures Abs() == SetModeOf(old(Abs()), newMode, newLatchMode, newBcd)
    {
      hide CountOnce;
      var _ := Count();
      delay := 1;
      bcd := newBcd;
      if newMode % 4 == 2 {
        mode := 2;
      } else if newMode % 4 == 3 {
        mode := 3;
      } else {
        mode := newMode;
      }
      match mode {
        case 0 => out, armed, enabled := 0, true, false;
        case 1 => out, armed, enabled := 1, true, false;
        case _ => out, enabled := 1, false;
      }
      load := false;
      latchMode := newLatchMode;
      writeState := 0;
    }

    method Latch()
      modifies this
      ensures Abs() == LatchOf(old(Abs()))
    {
      var _ := Count();
      delay := 1;
      latchValue := value;
    }

    method WriteValue(w: Byte)
      modifies this
      ensures Abs() == WriteValueOf(old(Abs()), w)
    {
      hide Loaded;
      if latchMode == 3 {
        if writeState == 0 {
          lsb, writeState := w, 1;
        } else if writeState == 1 {
          msb, writeState := w, 0;
          loadValue, load := Pair(msb, lsb), true;
        }
      } else if latchMode == 1 {
        loadValue, load := w, true;
      } else if latchMode == 2 {
        value := Pair(w, 0);
        loadValue, load := Pair(w, 0), true;
      }
      FinishLoad();
    }

    /** The rest of write_value: decimal divisors, and the delay before they take effect. */
    method FinishLoad()
      modifies this`loadValue, this`delay
      ensures Abs() == Loaded(old(Abs()))
    {
      hide FromBcdOf;
      if load {
        if bcd {
          var v := FromBcd(loadValue);
          loadValue := v;
        }
        match mode {
          case 0 => delay := 3;
          case 1 => if !enabled { delay := 3; }
          case 2 => if !enabled { delay := 3; }
          case 3 => if !enabled { delay := 3; }
          case _ => delay := 4;
        }
      }
    }

    method ReadValue() returns (r: int)
      modifies this
      ensures Abs() == ReadValueOf(old(Abs())).0 && r == ReadValueOf(old(Abs())).1
    {
      var v := if latchValue != -1 then latchValue else value;
      if bcd {
        v := ToBcd(ToWord(v));
      }
      match latchMode {
        case 1 =>
          latchValue := -1;
          r := v % 256;
        case 2 =>
          latchValue := -1;
          r := v / 256 % 256;
        case 3 =>
          match writeState {
            case 0 =>
              writeState := 1;
              r := v % 256;
            case 1 =>
              latchValue, writeState := -1, 0;
              r := v / 256 % 256;
            case _ =>
              r := v;
          }
        case _ =>
          r := 0;
      }
    }
  }
}
