/** How a log entry is written out, and the byte count that is kept for it. */
module LogFormat {

  datatype Level = Emergency | Alert | Critical | Error | Warning | Notice | Info | Debug

  /** An entry; the message is its bytes, one character each. */
  datatype Entry = Entry(level: Level, cpu: nat, task: nat, timestamp: nat, message: string)

  function Label(level: Level): string {
    match level
    case Emergency => "[EMERG]"
    case Alert => "[ALERT]"
    case Critical => "[CRIT]"
    case Error => "[ERR]"
    case Warning => "[WARNING]"
    case Notice => "[NOTICE]"
    case Info => "[INFO]"
    case Debug => "[DEBUG]"
  }

  function Color(level: Level): string {
    match level
    case Error => "\U{1B}[31m"
    case Warning => "\U{1B}[33m"
    case Notice => "\U{1B}[1;37m"
    case Info => "\U{1B}[37m"
    case Debug => "\U{1B}[90m"
    case _ => "\U{1B}[1;31m"
  }

  const RESET: string := "\U{1B}[0m"

  function Digit(d: nat): char
    requires d < 10
  {
    ('0' as int + d) as char
  }

  /** The decimal digits of a number. */
  function Decimal(n: nat): (s: string)
    ensures s != []
  {
    if n < 10 then [Digit(n)] else Decimal(n / 10) + [Digit(n % 10)]
  }

  /** Right-aligned in a field of at least `width` characters. */
  function Pad(s: string, width: nat): (p: string)
    ensures |p| == if |s| < width then width else |s|
  {
    if |s| < width then seq(width - |s|, _ => ' ') + s else s
  }

  function Context(e: Entry): string {
    "[CPU" + Decimal(e.cpu) + "/T" + Pad(Decimal(e.task), 3) + "]"
  }

  function Format(e: Entry): string {
    Color(e.level) + Label(e.level) + " [" + Pad(Decimal(e.timestamp), 12) + "] " + Context(e) + " " + e.message + RESET
  }

  /** Number of digits, counted by dividing by ten until nothing is left. */
  method CountDigits(n: nat) returns (digits: nat)
    requires n > 0
    ensures digits == |Decimal(n)|
  {
    var m: nat := n;
    digits := 0;
    while m > 0
      invariant m > 0 ==> digits + |Decimal(m)| == |Decimal(n)|
      invariant m == 0 ==> digits == |Decimal(n)|
    {
      digits := digits + 1;
      m := m / 10;
    }
  }

  /** The length kept for an entry; the timestamp is always taken to have twelve digits. */
  function FormattedLength(e: Entry): (n: nat)
    ensures n > 0
  {
    |Color(e.level)| + |Label(e.level)| + 14 + (5 + |Decimal(e.cpu)| + 2 + |Pad(Decimal(e.task), 3)| + 1)
    + |e.message| + |RESET| + 3
  }

  method CalculateFormattedLength(e: Entry) returns (n: nat)
    ensures n == FormattedLength(e)
  {
    var cpuDigits := 1;
    if e.cpu != 0 {
      cpuDigits := CountDigits(e.cpu);
    }
    var taskDigits := 3;
    if e.task != 0 {
      var digits := CountDigits(e.task);
      taskDigits := if digits < 3 then 3 else digits;
    }
    var context := 5 + cpuDigits + 2 + taskDigits + 1;
    n := |Color(e.level)| + |Label(e.level)| + 14 + context + |e.message| + |RESET| + 3;
  }

  function Pow10(k: nat): (p: nat)
    ensures p > 0
  {
    if k == 0 then 1 else 10 * Pow10(k - 1)
  }

  /** A number has at most `k` digits exactly below the k-th power of ten. */
  lemma {:induction false} DigitsBelow(n: nat, k: nat)
    requires k > 0
    ensures |Decimal(n)| <= k <==> n < Pow10(k)
    decreases k
  {
    if n < 10 {
      assert Pow10(k) == 10 * Pow10(k - 1);
    } else if k == 1 {
      assert Pow10(1) == 10 * Pow10(0);
    } else {
      DigitsBelow(n / 10, k - 1);
      assert Pow10(k) == 10 * Pow10(k - 1);
    }
  }

  /** The kept length is the written line with its newline exactly for timestamps of at most twelve digits. */
  lemma LengthIsExact(e: Entry)
    ensures FormattedLength(e) == |Format(e) + "\n"| <==> e.timestamp < 1_000_000_000_000
  {
    DigitsBelow(e.timestamp, 12);
    PowersOfTen();
    FormatLength(e);
  }

  lemma PowersOfTen()
    ensures Pow10(12) == 1_000_000_000_000
  {
    assert Pow10(4) == 10_000;
    assert Pow10(8) == 10_000 * Pow10(4);
    assert Pow10(12) == 10_000 * Pow10(8);
  }

  lemma FormatLength(e: Entry)
    ensures |Format(e)| == |Color(e.level)| + |Label(e.level)| + |Pad(Decimal(e.timestamp), 12)| + |Decimal(e.cpu)|
                           + |Pad(Decimal(e.task), 3)| + |e.message| + |RESET| + 12
  {
  }
}
