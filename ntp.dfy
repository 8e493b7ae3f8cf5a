/** The line filter of the NTP log parser (ntp-parser/parse_ntplogs_loop.py,
    `parse_and_store_line`) and its two keyed upserts. One line of ntpd's
    peerstats log is split into tokens; lines from the local clock, from
    configured upstream servers and malformed lines are dropped; the others
    become a request record keyed by (timestamp, source ip) and an update of
    the per-address attacker record. The database collections are maps. */
module NtpParser {
  import opened Bytes

  // ---------------------------------------------------------------- text

  /** The code points Python counts as whitespace (`str.isspace`), which is
      what `str.split()` and `str.strip()` with no argument use. */
  const SpaceCodes: set<int> := {
    0x09, 0x0A, 0x0B, 0x0C, 0x0D, 0x1C, 0x1D, 0x1E, 0x1F, 0x20, 0x85, 0xA0,
    0x1680, 0x2000, 0x2001, 0x2002, 0x2003, 0x2004, 0x2005, 0x2006, 0x2007,
    0x2008, 0x2009, 0x200A, 0x2028, 0x2029, 0x202F, 0x205F, 0x3000 }

  predicate IsSpace(c: char)
  {
    c as int in SpaceCodes
  }

  /** A token of `str.split()`: non-empty and free of whitespace. */
  predicate IsWord(w: string)
  {
    |w| > 0 && forall k :: 0 <= k < |w| ==> !IsSpace(w[k])
  }

  /** The length of the whitespace-free run at the front of `s`. */
  function WordLen(s: string): (n: nat)
    ensures n <= |s|
    ensures forall k :: 0 <= k < n ==> !IsSpace(s[k])
    ensures n < |s| ==> IsSpace(s[n])
  {
    if s == [] || IsSpace(s[0]) then 0 else 1 + WordLen(s[1..])
  }

  /** `str.split()`: the maximal whitespace-free runs of `s`, in order. */
  function Split(s: string): (ts: seq<string>)
    ensures forall i :: 0 <= i < |ts| ==> IsWord(ts[i])
    decreases |s|
  {
    if s == [] then []
    else if IsSpace(s[0]) then Split(s[1..])
    else
      var n := WordLen(s);
      [s[..n]] + Split(s[n..])
  }

  /** A whitespace-free run that ends at whitespace or at the end of `s` is
      the word at the front of `s`. */
  lemma WordLenExact(s: string, m: nat)
    requires m <= |s| && forall k :: 0 <= k < m ==> !IsSpace(s[k])
    requires m < |s| ==> IsSpace(s[m])
    ensures WordLen(s) == m
  {
  }

  /** A single word splits into itself. */
  lemma SplitWord(w: string)
    requires IsWord(w)
    ensures Split(w) == [w]
  {
    WordLenExact(w, |w|);
    assert w[..|w|] == w && w[|w|..] == [];
  }

  /** Whitespace separates: splitting at a whitespace character splits both
      sides independently. Together with SplitWord this determines Split: its
      tokens are the maximal whitespace-free runs of the string, in order. */
  lemma {:induction false} SplitAtSpace(a: string, c: char, b: string)
    requires IsSpace(c)
    ensures Split(a + [c] + b) == Split(a) + Split(b)
    decreases |a|
  {
    var s := a + [c] + b;
    if a == [] {
      assert s[1..] == b;
    } else if IsSpace(a[0]) {
      assert s[1..] == a[1..] + [c] + b;
      SplitAtSpace(a[1..], c, b);
    } else {
      var m := WordLen(a);
      var w := a[..m];
      SplitFrontWord(a, c, b);
      assert Split(a) == [w] + Split(a[m..]);
      if m < |a| {
        SplitAtSpace(a[m..], c, b);
        assert Split(s) == [w] + (Split(a[m..]) + Split(b));
      } else {
        assert a[m..] + [c] + b == [c] + b;
        assert ([c] + b)[1..] == b;
        assert Split(s) == [w] + Split(b);
        assert Split(a) == [w];
      }
    }
  }

  /** The word at the front of `a` is also the word at the front of `a`
      followed by whitespace. */
  lemma SplitFrontWord(a: string, c: char, b: string)
    requires IsSpace(c) && a != [] && !IsSpace(a[0])
    ensures Split(a + [c] + b) == [a[..WordLen(a)]] + Split(a[WordLen(a)..] + [c] + b)
  {
    var s := a + [c] + b;
    var m := WordLen(a);
    assert forall k :: 0 <= k < m ==> s[k] == a[k];
    assert s[m] == if m < |a| then a[m] else c;
    WordLenExact(s, m);
    assert s[..m] == a[..m];
    assert s[m..] == a[m..] + [c] + b;
  }

  /** `' '.join(ts)`, the inverse of Split on well-formed tokens. */
  function Join(ts: seq<string>): string
  {
    if ts == [] then []
    else if |ts| == 1 then ts[0]
    else ts[0] + " " + Join(ts[1..])
  }

  /** Splitting tokens joined by single spaces gives the tokens back. */
  lemma {:induction false} SplitJoin(ts: seq<string>)
    requires forall i :: 0 <= i < |ts| ==> IsWord(ts[i])
    ensures Split(Join(ts)) == ts
  {
    if |ts| == 1 {
      var w := ts[0];
      assert WordLen(w) == |w|;
      assert w[..|w|] == w && w[|w|..] == [];
    } else if |ts| > 1 {
      var w, rest := ts[0], Join(ts[1..]);
      var s := w + " " + rest;
      assert s[|w|] == ' ';
      assert WordLen(s) == |w| by {
        assert forall k :: 0 <= k < |w| ==> s[k] == w[k];
      }
      assert s[..|w|] == w;
      assert s[|w|..] == " " + rest;
      assert (" " + rest)[1..] == rest;
      SplitJoin(ts[1..]);
    }
  }

  /** The number of whitespace characters at the front of `s`. */
  function LeadingSpaces(s: string): (n: nat)
    ensures n <= |s|
    ensures forall k :: 0 <= k < n ==> IsSpace(s[k])
    ensures n < |s| ==> !IsSpace(s[n])
  {
    if s != [] && IsSpace(s[0]) then 1 + LeadingSpaces(s[1..]) else 0
  }

  /** The number of whitespace characters at the end of `s`. */
  function TrailingSpaces(s: string): (n: nat)
    ensures n <= |s|
    ensures forall k :: |s| - n <= k < |s| ==> IsSpace(s[k])
    ensures n < |s| ==> !IsSpace(s[|s| - n - 1])
  {
    if s != [] && IsSpace(s[|s| - 1]) then 1 + TrailingSpaces(s[..|s| - 1]) else 0
  }

  /** `str.strip()`: the middle part of `s` that neither starts nor ends with
      whitespace, everything around it being whitespace. */
  function Strip(s: string): (r: string)
    ensures r == [] || (!IsSpace(r[0]) && !IsSpace(r[|r| - 1]))
    ensures LeadingSpaces(s) + |r| <= |s| && r == s[LeadingSpaces(s)..LeadingSpaces(s) + |r|]
    ensures forall k :: LeadingSpaces(s) + |r| <= k < |s| ==> IsSpace(s[k])
  {
    var i := LeadingSpaces(s);
    var rest := s[i..];
    var t := TrailingSpaces(rest);
    var r := rest[..|rest| - t];
    assert r == s[i..i + |r|];
    assert r != [] ==> r[0] == s[i] && r[|r| - 1] == rest[|rest| - t - 1];
    assert forall k :: i + |r| <= k < |s| ==> IsSpace(s[k]) by {
      forall k | i + |r| <= k < |s|
        ensures IsSpace(s[k])
      {
        assert s[k] == rest[k - i];
      }
    }
    r
  }

  /** Addresses of the local clock driver: the `127.` prefix. */
  predicate IsLoopback(ip: string)
  {
    |ip| >= 4 && ip[..4] == "127."
  }

  /** The local clock driver's addresses are exactly those that begin with
      the four characters `127.`; a longer first octet or a 127 elsewhere in
      the address does not count. */
  lemma LoopbackAddresses(rest: string)
    ensures IsLoopback("127." + rest)
    ensures !IsLoopback("1270." + rest) && !IsLoopback("10.127." + rest) && !IsLoopback("127")
  {
    assert ("127." + rest)[..4] == "127.";
    assert ("1270." + rest)[..4] == "1270";
    assert ("10.127." + rest)[..4] == "10.1";
  }

  // ----------------------------------------------------------- int(s, 16)

  predicate IsHexDigit(c: char)
  {
    '0' <= c <= '9' || 'a' <= c <= 'f' || 'A' <= c <= 'F'
  }

  function HexVal(c: char): (d: nat)
    requires IsHexDigit(c)
    ensures d < 16
  {
    if '0' <= c <= '9' then c as int - '0' as int
    else if 'a' <= c <= 'f' then c as int - 'a' as int + 10
    else c as int - 'A' as int + 10
  }

  /** The lower-case digit for a value below 16. */
  function HexChar(d: nat): (c: char)
    requires d < 16
    ensures IsHexDigit(c) && HexVal(c) == d
  {
    if d < 10 then ('0' as int + d) as char else ('a' as int + d - 10) as char
  }

  /** The digits of a hex literal with PEP 515 underscores: hex digits, a
      single underscore allowed between two of them, none at either end. */
  function HexBody(s: string): Option<nat>
    decreases |s|
  {
    if s == [] || !IsHexDigit(s[|s| - 1]) then None
    else if |s| == 1 then Some(HexVal(s[0]))
    else
      var init := s[..|s| - 1];
      var front := if init[|init| - 1] == '_' then init[..|init| - 1] else init;
      match HexBody(front)
      case None => None
      case Some(v) => Some(16 * v + HexVal(s[|s| - 1]))
  }

  /** The sign of an `int()` literal, if any, taken off. */
  function Unsigned(s: string): (r: string)
    ensures |r| <= |s| && r == s[|s| - |r|..]
  {
    if |s| > 0 && (s[0] == '-' || s[0] == '+') then s[1..] else s
  }

  /** The digits of a base-16 literal: its sign taken off, then a `0x`/`0X`
      prefix, which may be followed by one underscore. */
  function HexDigitsOf(s: string): (r: string)
    ensures |r| <= |s| && r == s[|s| - |r|..]
  {
    var u := Unsigned(s);
    if |u| >= 2 && u[0] == '0' && (u[1] == 'x' || u[1] == 'X') then
      if |u| >= 3 && u[2] == '_' then u[3..] else u[2..]
    else u
  }

  /** A magnitude with the literal's sign applied. */
  function Signed(s: string, v: nat): int
  {
    if |s| > 0 && s[0] == '-' then -(v as int) else v
  }

  /** `int(s, 16)` on a token: an optional sign, an optional prefix, then the
      digits. Anything else raises ValueError, which is None here. */
  function ParseHex(s: string): (r: Option<int>)
    ensures r.Some? ==> |s| > 0 && (r.value < 0 ==> s[0] == '-') && (s[0] == '-' ==> r.value <= 0)
  {
    match HexBody(HexDigitsOf(s))
    case None => None
    case Some(v) => Some(Signed(s, v))
  }

  /** `format(n, 'x')`: the lower-case hex digits of `n`. */
  function HexString(n: nat): (r: string)
    ensures |r| > 0 && forall k :: 0 <= k < |r| ==> IsHexDigit(r[k])
  {
    if n < 16 then [HexChar(n)] else HexString(n / 16) + [HexChar(n % 16)]
  }

  /** The hex digits of a number read back as that number. */
  lemma {:induction false} HexBodyRoundTrip(n: nat)
    ensures HexBody(HexString(n)) == Some(n)
  {
    if n >= 16 {
      var s := HexString(n);
      HexBodyRoundTrip(n / 16);
      assert s[..|s| - 1] == HexString(n / 16);
    }
  }

  /** A string of bare hex digits has neither sign nor prefix. */
  lemma BareHexDigits(s: string)
    requires |s| > 0 && forall k :: 0 <= k < |s| ==> IsHexDigit(s[k])
    ensures Unsigned(s) == s && HexDigitsOf(s) == s
  {
    assert IsHexDigit(s[0]);
    assert |s| >= 2 ==> IsHexDigit(s[1]);
  }

  /** `int(format(n, 'x'), 16) == n`, with or without a minus sign. */
  lemma HexRoundTrip(n: nat)
    ensures ParseHex(HexString(n)) == Some(n)
    ensures var r := ParseHex("-" + HexString(n)); r.Some? && r.value == -(n as int)
  {
    var s := HexString(n);
    HexBodyRoundTrip(n);
    BareHexDigits(s);
    var m := "-" + s;
    assert m[1..] == s;
    assert Unsigned(m) == s;
    assert HexDigitsOf(m) == HexDigitsOf(s);
  }

  /** The status word's CONFIG flag: `status & 0x1`, Python's `&` acting on
      the two's complement of an unbounded integer, so that for negative
      values too it is the remainder modulo 2. */
  predicate ConfigFlag(status: int)
  {
    status % 2 == 1
  }

  lemma Parity16(w: nat, d: nat)
    ensures (16 * w + d) % 2 == d % 2
  {
    assert 16 * w + d == 2 * (8 * w) + d;
  }

  /** A negative number has the low bit of its magnitude. */
  lemma NegatedParity(v: nat)
    ensures (-(v as int)) % 2 == v % 2
  {
    var q, r := v / 2, v % 2;
    assert v == 2 * q + r;
    if r == 0 {
      assert -(v as int) == 2 * (-q);
    } else {
      assert -(v as int) == 2 * (-q - 1) + 1;
    }
  }

  /** The parity of hex digits is the parity of the last digit. */
  lemma {:induction false} HexBodyParity(s: string)
    requires HexBody(s).Some?
    ensures |s| > 0 && IsHexDigit(s[|s| - 1])
    ensures HexBody(s).value % 2 == HexVal(s[|s| - 1]) % 2
  {
    if |s| > 1 {
      var init := s[..|s| - 1];
      var front := if init[|init| - 1] == '_' then init[..|init| - 1] else init;
      var w := HexBody(front).value;
      assert HexBody(s).value == 16 * w + HexVal(s[|s| - 1]);
      Parity16(w, HexVal(s[|s| - 1]));
    }
  }

  /** The CONFIG flag of a parsed status is read off its last hex digit,
      whatever its sign or prefix. */
  lemma ConfigFlagLastDigit(s: string)
    requires ParseHex(s).Some?
    ensures |s| > 0 && IsHexDigit(s[|s| - 1])
    ensures ConfigFlag(ParseHex(s).value) <==> HexVal(s[|s| - 1]) % 2 == 1
  {
    var digits := HexDigitsOf(s);
    var v := HexBody(digits).value;
    HexBodyParity(digits);
    assert digits[|digits| - 1] == s[|s| - 1];
    assert ParseHex(s).value == Signed(s, v);
    NegatedParity(v);
  }

  // ----------------------------------------------------- int(float(s))

  predicate IsDigit(c: char)
  {
    '0' <= c <= '9'
  }

  predicate AllDigits(s: string)
  {
    forall k :: 0 <= k < |s| ==> IsDigit(s[k])
  }

  /** The length of the run of decimal digits at the front of `s`. */
  function DigitRun(s: string): (n: nat)
    ensures n <= |s| && AllDigits(s[..n])
    ensures n < |s| ==> !IsDigit(s[n])
  {
    if s == [] || !IsDigit(s[0]) then 0
    else
      var n := 1 + DigitRun(s[1..]);
      assert forall k :: 1 <= k < n ==> s[..n][k] == s[1..][..n - 1][k - 1];
      n
  }

  /** The value of a string of decimal digits, most significant first; the
      empty string is 0. */
  function DecimalValue(ds: string): nat
    requires AllDigits(ds)
  {
    if ds == [] then 0
    else 10 * DecimalValue(ds[..|ds| - 1]) + (ds[|ds| - 1] as int - '0' as int)
  }

  /** An unsigned decimal literal: digits with an optional fraction, at
      least one digit in all; its value is the integer part. */
  function Magnitude(u: string): Option<nat>
  {
    var n := DigitRun(u);
    var tail := u[n..];
    var wellFormed :=
      if tail == [] then n > 0
      else tail[0] == '.' && AllDigits(tail[1..]) && (n > 0 || |tail| > 1);
    if wellFormed then Some(DecimalValue(u[..n])) else None
  }

  /** `int(float(s))` for the decimal literals the peerstats log writes: an
      optional sign, then an unsigned literal. `int` truncates toward zero, so
      the value is the integer part with the sign. Anything else is None. */
  function ParseSeconds(s: string): (r: Option<int>)
    ensures r.Some? ==> |s| > 0 && (r.value < 0 ==> s[0] == '-') && (s[0] == '-' ==> r.value <= 0)
  {
    match Magnitude(Unsigned(s))
    case None => None
    case Some(w) => Some(Signed(s, w))
  }

  /** `str(n)`: the decimal digits of `n`. */
  function DecimalString(n: nat): (r: string)
    ensures |r| > 0 && AllDigits(r)
  {
    if n < 10 then [('0' as int + n) as char]
    else DecimalString(n / 10) + [('0' as int + n % 10) as char]
  }

  lemma {:induction false} DecimalRoundTrip(n: nat)
    ensures DecimalValue(DecimalString(n)) == n
  {
    if n >= 10 {
      var s := DecimalString(n);
      DecimalRoundTrip(n / 10);
      assert s[..|s| - 1] == DecimalString(n / 10);
    }
  }

  /** The digit run of digits followed by a non-digit ends at the non-digit. */
  lemma DigitRunStops(ds: string, rest: string)
    requires AllDigits(ds) && (rest == [] || !IsDigit(rest[0]))
    ensures DigitRun(ds + rest) == |ds|
    ensures (ds + rest)[..|ds|] == ds && (ds + rest)[|ds|..] == rest
  {
  }

  /** Digits alone read as their value. */
  lemma MagnitudeWhole(ds: string)
    requires |ds| > 0 && AllDigits(ds)
    ensures Magnitude(ds) == Some(DecimalValue(ds))
  {
    DigitRunStops(ds, []);
    assert ds + [] == ds;
  }

  /** Digits and a fraction read as the integer part: the fraction is
      dropped, never rounded. */
  lemma MagnitudeFraction(ds: string, fs: string)
    requires |ds| > 0 && AllDigits(ds) && AllDigits(fs)
    ensures Magnitude(ds + "." + fs) == Some(DecimalValue(ds))
  {
    var rest := "." + fs;
    var u := ds + rest;
    assert ds + "." + fs == u;
    DigitRunStops(ds, rest);
    assert u[DigitRun(u)..] == rest && rest[0] == '.' && rest[1..] == fs;
    assert u[..DigitRun(u)] == ds;
  }

  /** A literal that starts with a digit has no sign. */
  lemma UnsignedDigits(u: string)
    requires |u| > 0 && IsDigit(u[0])
    ensures Unsigned(u) == u && Signed(u, 0) == 0
    ensures forall v: nat :: Signed(u, v) == v
  {
  }

  /** A digit string, with or without a fraction, reads as the value of its
      integer part. */
  lemma SecondsOfDecimal(ds: string, fs: string)
    requires |ds| > 0 && AllDigits(ds) && AllDigits(fs)
    ensures ParseSeconds(ds) == Some(DecimalValue(ds))
    ensures ParseSeconds(ds + "." + fs) == Some(DecimalValue(ds))
  {
    MagnitudeWhole(ds);
    UnsignedDigits(ds);
    var frac := ds + "." + fs;
    MagnitudeFraction(ds, fs);
    assert frac[0] == ds[0];
    UnsignedDigits(frac);
  }

  /** With a minus sign the integer part is negated: truncation is toward
      zero, not toward minus infinity. */
  lemma NegativeSecondsOfDecimal(ds: string, fs: string)
    requires |ds| > 0 && AllDigits(ds) && AllDigits(fs)
    ensures var r := ParseSeconds("-" + (ds + "." + fs));
      r.Some? && r.value == -(DecimalValue(ds) as int)
  {
    var frac := ds + "." + fs;
    MagnitudeFraction(ds, fs);
    var neg := "-" + frac;
    assert neg[1..] == frac;
    assert Unsigned(neg) == frac;
    assert Signed(neg, DecimalValue(ds)) == -(DecimalValue(ds) as int);
  }

  /** The decimal form of a number of seconds, with any fraction, reads back
      as that number. */
  lemma SecondsRoundTrip(n: nat, fs: string)
    requires AllDigits(fs)
    ensures ParseSeconds(DecimalString(n)) == Some(n)
    ensures ParseSeconds(DecimalString(n) + "." + fs) == Some(n)
  {
    DecimalRoundTrip(n);
    SecondsOfDecimal(DecimalString(n), fs);
  }

  // --------------------------------------------------------- time of day

  const SecondsPerDay: nat := 86400

  /** `datetime.min + timedelta(seconds=s)` stays within years 1..9999 only
      for 0 <= s < this bound (3652059 days from 0001-01-01 to 9999-12-31
      inclusive); outside it Python raises OverflowError. */
  const MaxOffsetSeconds: nat := 3652059 * 86400

  datatype Time = Time(hour: nat, minute: nat, second: nat)

  predicate ValidTime(t: Time)
  {
    t.hour < 24 && t.minute < 60 && t.second < 60
  }

  function SecondsOf(t: Time): nat
  {
    t.hour * 3600 + t.minute * 60 + t.second
  }

  /** `(datetime.min + timedelta(seconds=s)).time()`: midnight plus `s`
      seconds, whole days dropped, as hours, minutes and seconds. */
  function TimeOfDay(s: nat): (t: Time)
    ensures ValidTime(t)
    ensures SecondsOf(t) == s % SecondsPerDay
  {
    var d := s % SecondsPerDay;
    Time(d / 3600, d % 3600 / 60, d % 60)
  }

  /** Whole units and a remainder below the unit divide back apart. */
  lemma DivideUnits(q: nat, r: nat, unit: nat)
    requires unit == 60 || unit == 3600
    requires r < unit
    ensures (q * unit + r) / unit == q && (q * unit + r) % unit == r
  {
  }

  /** Every valid time of day is reached exactly by its own second count. */
  lemma TimeOfDayInverse(t: Time)
    requires ValidTime(t)
    ensures SecondsOf(t) < SecondsPerDay
    ensures TimeOfDay(SecondsOf(t)) == t
  {
    var s := SecondsOf(t);
    var inHour := t.minute * 60 + t.second;
    DivideUnits(t.minute, t.second, 60);
    assert inHour < 3600;
    assert s == t.hour * 3600 + inHour;
    DivideUnits(t.hour, inHour, 3600);
    assert s % SecondsPerDay == s;
    assert s == (t.hour * 60 + t.minute) * 60 + t.second;
    DivideUnits(t.hour * 60 + t.minute, t.second, 60);
  }

  // ------------------------------------------------------------ the line

  /** The date part of a timestamp: today's UTC date, given by the caller. */
  datatype Date = Date(year: int, month: int, day: int)

  datatype DateTime = DateTime(date: Date, time: Time)

  /** What an accepted line contributes: when, from where, and the stripped
      line itself. */
  datatype Observation = Observation(timestamp: DateTime, ip: string, raw: string)

  /** The tokens of a line: `line.strip().split()`. */
  function Tokens(line: string): seq<string>
  {
    Split(Strip(line))
  }

  /** `parse_and_store_line` up to the writes. A line is dropped when it has
      fewer than 4 tokens, when its source address (token 2) is a loopback
      address, when its status (token 3) is not a hex integer or carries the
      CONFIG flag, when its seconds-of-day field (token 1) is not a decimal
      number, and when that number puts `datetime.min + timedelta` out of
      range. Otherwise the time of day is the whole seconds modulo one day,
      on the given date. */
  function ParseLine(line: string, today: Date): (r: Option<Observation>)
    ensures |Tokens(line)| < 4 ==> r.None?
    ensures r.Some? ==>
      var ts := Tokens(line);
      && |ts| >= 4
      && r.value.ip == ts[2] && !IsLoopback(ts[2])
      && ParseHex(ts[3]).Some? && !ConfigFlag(ParseHex(ts[3]).value)
      && ParseSeconds(ts[1]).Some? && 0 <= ParseSeconds(ts[1]).value < MaxOffsetSeconds
      && r.value.timestamp == DateTime(today, TimeOfDay(ParseSeconds(ts[1]).value))
      && r.value.raw == Strip(line)
  {
    var ts := Tokens(line);
    if |ts| < 4 then None
    else
      var ip, status := ts[2], ts[3];
      if IsLoopback(ip) then None
      else match ParseHex(status)
        case None => None
        case Some(flags) =>
          if ConfigFlag(flags) then None
          else match ParseSeconds(ts[1])
            case None => None
            case Some(seconds) =>
              if seconds < 0 || seconds >= MaxOffsetSeconds then None
              else Some(Observation(DateTime(today, TimeOfDay(seconds)), ip, Strip(line)))
  }

  /** Every line that passes all the filters is accepted. */
  lemma ParseLineAccepts(line: string, today: Date)
    requires |Tokens(line)| >= 4
    requires !IsLoopback(Tokens(line)[2])
    requires ParseHex(Tokens(line)[3]).Some? && !ConfigFlag(ParseHex(Tokens(line)[3]).value)
    requires ParseSeconds(Tokens(line)[1]).Some?
    requires 0 <= ParseSeconds(Tokens(line)[1]).value < MaxOffsetSeconds
    ensures ParseLine(line, today).Some?
  {
  }

  /** The filters, one by one: a loopback source, a status that is not hex
      or has the CONFIG flag, or an unusable seconds field drops the line. */
  lemma ParseLineRejects(line: string, today: Date)
    requires |Tokens(line)| >= 4
    ensures IsLoopback(Tokens(line)[2]) ==> ParseLine(line, today).None?
    ensures ParseHex(Tokens(line)[3]).None? ==> ParseLine(line, today).None?
    ensures ParseHex(Tokens(line)[3]).Some? && ConfigFlag(ParseHex(Tokens(line)[3]).value)
      ==> ParseLine(line, today).None?
    ensures ParseSeconds(Tokens(line)[1]).None? ==> ParseLine(line, today).None?
    ensures ParseSeconds(Tokens(line)[1]).Some? && ParseSeconds(Tokens(line)[1]).value < 0
      ==> ParseLine(line, today).None?
  {
  }

  // --------------------------------------------------------- the upserts

  /** A document of the `ntp_requests` collection. */
  datatype RequestDoc = RequestDoc(timestamp: DateTime, sourceIp: string, rawLog: string)

  /** The fields of an `attackers` document this parser touches; a record
      made by another parser may lack either date. */
  datatype Attacker = Attacker(firstSeen: Option<DateTime>, lastSeen: Option<DateTime>, services: seq<string>)

  /** The two collections, keyed as the upserts' filters key them. */
  datatype Collections = Collections(
    requests: map<(DateTime, string), RequestDoc>,
    attackers: map<string, Attacker>)

  const NtpService: string := "ntp"

  /** MongoDB's `$addToSet` on an array: append unless already present. */
  function AddToSet(xs: seq<string>, x: string): (r: seq<string>)
    ensures x in r
    ensures |xs| <= |r| <= |xs| + 1 && r[..|xs|] == xs
    ensures multiset(r)[x] == if x in xs then multiset(xs)[x] else 1
  {
    if x in xs then xs
    else
      assert (xs + [x])[..|xs|] == xs;
      xs + [x]
  }

  /** The `update_one` on `ntp_requests`: the document with this timestamp and
      source address is created or overwritten. */
  function UpsertRequest(requests: map<(DateTime, string), RequestDoc>, obs: Observation): (r: map<(DateTime, string), RequestDoc>)
    ensures (obs.timestamp, obs.ip) in r
    ensures r[(obs.timestamp, obs.ip)] == RequestDoc(obs.timestamp, obs.ip, obs.raw)
    ensures r.Keys == requests.Keys + {(obs.timestamp, obs.ip)}
    ensures forall k :: k in requests && k != (obs.timestamp, obs.ip) ==> r[k] == requests[k]
  {
    requests[(obs.timestamp, obs.ip) := RequestDoc(obs.timestamp, obs.ip, obs.raw)]
  }

  /** The `update_one` on `attackers`: `last_seen` is set, `first_seen` only
      when the record is created, and "ntp" is added to the services. */
  function UpsertAttacker(attackers: map<string, Attacker>, ip: string, seen: DateTime): (r: map<string, Attacker>)
    ensures ip in r && r.Keys == attackers.Keys + {ip}
    ensures r[ip].lastSeen == Some(seen)
    ensures r[ip].firstSeen == if ip in attackers then attackers[ip].firstSeen else Some(seen)
    ensures ip !in attackers ==> r[ip].services == [NtpService]
    ensures ip in attackers ==> r[ip].services == AddToSet(attackers[ip].services, NtpService)
    ensures forall k :: k in attackers && k != ip ==> r[k] == attackers[k]
  {
    if ip in attackers then
      var old_ := attackers[ip];
      attackers[ip := Attacker(old_.firstSeen, Some(seen), AddToSet(old_.services, NtpService))]
    else
      attackers[ip := Attacker(Some(seen), Some(seen), [NtpService])]
  }

  /** The collections after one line. */
  function StoreLine(c: Collections, line: string, today: Date): (r: Collections)
    ensures c.requests.Keys <= r.requests.Keys && c.attackers.Keys <= r.attackers.Keys
  {
    match ParseLine(line, today)
    case None => c
    case Some(obs) => Collections(UpsertRequest(c.requests, obs), UpsertAttacker(c.attackers, obs.ip, obs.timestamp))
  }

  /** A dropped line writes nothing; an accepted one writes exactly the
      request record under its (timestamp, source) key and the attacker
      record of its source. */
  lemma StoreLineEffect(c: Collections, line: string, today: Date)
    ensures var c' := StoreLine(c, line, today);
      && (ParseLine(line, today).None? ==> c' == c)
      && (ParseLine(line, today).Some? ==>
        var obs := ParseLine(line, today).value;
        && c'.requests.Keys == c.requests.Keys + {(obs.timestamp, obs.ip)}
        && c'.requests[(obs.timestamp, obs.ip)].rawLog == Strip(line)
        && c'.attackers.Keys == c.attackers.Keys + {obs.ip}
        && c'.attackers[obs.ip].lastSeen == Some(obs.timestamp)
        && (forall k :: k in c.attackers && k != obs.ip ==> c'.attackers[k] == c.attackers[k]))
  {
  }

  /** Upserting the same request twice is upserting it once. */
  lemma UpsertRequestTwice(requests: map<(DateTime, string), RequestDoc>, obs: Observation)
    ensures UpsertRequest(UpsertRequest(requests, obs), obs) == UpsertRequest(requests, obs)
  {
  }

  /** Seeing the same address twice at the same time is seeing it once: the
      dates agree and "ntp" is not added again. */
  lemma UpsertAttackerTwice(attackers: map<string, Attacker>, ip: string, seen: DateTime)
    ensures UpsertAttacker(UpsertAttacker(attackers, ip, seen), ip, seen) == UpsertAttacker(attackers, ip, seen)
  {
    var once := UpsertAttacker(attackers, ip, seen);
    var twice := UpsertAttacker(once, ip, seen);
    assert twice[ip] == once[ip];
    assert twice.Keys == once.Keys;
  }

  /** Processing the same line twice leaves the collections as processing it
      once: one request record, and no second "ntp" entry. */
  lemma StoreLineIdempotent(c: Collections, line: string, today: Date)
    ensures StoreLine(StoreLine(c, line, today), line, today) == StoreLine(c, line, today)
  {
    match ParseLine(line, today)
    case None =>
    case Some(obs) =>
      UpsertRequestTwice(c.requests, obs);
      UpsertAttackerTwice(c.attackers, obs.ip, obs.timestamp);
  }

  /** After an accepted line the source's record lists "ntp" exactly once,
      unless another writer had already listed it more than once. */
  lemma NtpListedOnce(c: Collections, line: string, today: Date)
    requires ParseLine(line, today).Some?
    requires var ip := ParseLine(line, today).value.ip;
      ip in c.attackers ==> multiset(c.attackers[ip].services)[NtpService] <= 1
    ensures var ip := ParseLine(line, today).value.ip;
      multiset(StoreLine(c, line, today).attackers[ip].services)[NtpService] == 1
  {
  }

  /** The two collections the parser writes to. */
  class NtpStore {
    var requests: map<(DateTime, string), RequestDoc>
    var attackers: map<string, Attacker>

    constructor (requests: map<(DateTime, string), RequestDoc>, attackers: map<string, Attacker>)
      ensures this.requests == requests && this.attackers == attackers
    {
      this.requests := requests;
      this.attackers := attackers;
    }

    /** `parse_and_store_line`: the request upsert, then the attacker upsert,
        for a line the filters accept; nothing for any other line. */
    method ParseAndStoreLine(line: string, today: Date)
      modifies this
      ensures Collections(requests, attackers) == StoreLine(old(Collections(requests, attackers)), line, today)
    {
      var obs := ParseLine(line, today);
      if obs.None? {
        return;
      }
      var key := (obs.value.timestamp, obs.value.ip);
      requests := requests[key := RequestDoc(obs.value.timestamp, obs.value.ip, obs.value.raw)];
      if obs.value.ip in attackers {
        var record := attackers[obs.value.ip];
        attackers := attackers[obs.value.ip := Attacker(record.firstSeen, Some(obs.value.timestamp), AddToSet(record.services, NtpService))];
      } else {
        attackers := attackers[obs.value.ip := Attacker(Some(obs.value.timestamp), Some(obs.value.timestamp), [NtpService])];
      }
    }
  }
}
