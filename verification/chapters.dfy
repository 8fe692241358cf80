/**
 Rust's integer formatting as the chapter file uses it: `{:02}` and `{:03}`
 (decimal, zero padded, the sign counted in the width), and the truncating
 `/` and `%` of `i64`. `ReadInt` is the reader that undoes the formatting.
 */
module Decimal {
  import opened Wrappers
  import opened Scan

  const MINUS: byte := 45

  /** Rust's `/` on `i64`: rounds toward zero. */
  function TDiv(a: int, b: int): int
    requires b > 0
  {
    if a >= 0 then a / b else -((-a) / b)
  }

  /** Rust's `%` on `i64`: the remainder takes the sign of `a`. */
  function TRem(a: int, b: int): int
    requires b > 0
  {
    if a >= 0 then a % b else -((-a) % b)
  }

  /** Truncating division and remainder rebuild the dividend, and the remainder is smaller than the divisor. */
  lemma TruncDivRem(a: int, b: int)
    requires b > 0
    ensures TDiv(a, b) * b + TRem(a, b) == a
    ensures -b < TRem(a, b) < b
    ensures a >= 0 ==> TDiv(a, b) >= 0 && TRem(a, b) >= 0
    ensures a <= 0 ==> TDiv(a, b) <= 0 && TRem(a, b) <= 0
  {
    if a >= 0 {
      assert a == (a / b) * b + a % b;
    } else {
      var q, r := (-a) / b, (-a) % b;
      assert -a == q * b + r;
      assert TDiv(a, b) * b == -(q * b);
    }
  }

  predicate IsDigit(c: byte) {
    ZERO <= c <= ZERO + 9
  }

  predicate AllDigits(s: seq<byte>) {
    forall i | 0 <= i < |s| :: IsDigit(s[i])
  }

  /** The digit byte of `d`. */
  function DigitOf(d: nat): byte
    requires d < 10
  {
    if d == 0 then 48 else if d == 1 then 49 else if d == 2 then 50 else if d == 3 then 51
    else if d == 4 then 52 else if d == 5 then 53 else if d == 6 then 54 else if d == 7 then 55
    else if d == 8 then 56 else 57
  }

  /** The value of a digit byte. */
  function DigitValue(c: byte): (d: nat)
    requires IsDigit(c)
  {
    if c == 48 then 0 else if c == 49 then 1 else if c == 50 then 2 else if c == 51 then 3
    else if c == 52 then 4 else if c == 53 then 5 else if c == 54 then 6 else if c == 55 then 7
    else if c == 56 then 8 else 9
  }

  lemma DigitValueOf(d: nat)
    requires d < 10
    ensures IsDigit(DigitOf(d)) && DigitValue(DigitOf(d)) == d
  {
    if d == 0 {} else if d == 1 {} else if d == 2 {} else if d == 3 {} else if d == 4 {}
    else if d == 5 {} else if d == 6 {} else if d == 7 {} else if d == 8 {} else {}
  }

  /** The decimal digits of `n`, most significant first, without leading zeros. */
  function Digits(n: nat): (r: seq<byte>)
    ensures |r| >= 1
  {
    if n < 10 then [DigitOf(n)] else Digits(n / 10) + [DigitOf(n % 10)]
  }

  /** The number a run of decimal digits denotes. */
  function Value(s: seq<byte>): nat
    requires AllDigits(s)
  {
    if s == [] then 0 else Value(s[..|s| - 1]) * 10 + DigitValue(s[|s| - 1])
  }

  lemma {:induction false} DigitsAreDigits(n: nat)
    ensures AllDigits(Digits(n))
  {
    DigitValueOf(n % 10);
    if n >= 10 {
      DigitsAreDigits(n / 10);
    }
  }

  lemma {:induction false} ValueOfDigits(n: nat)
    ensures AllDigits(Digits(n)) && Value(Digits(n)) == n
  {
    DigitsAreDigits(n);
    DigitValueOf(n % 10);
    if n >= 10 {
      var d := Digits(n);
      assert d[..|d| - 1] == Digits(n / 10);
      ValueOfDigits(n / 10);
    }
  }

  function Zeros(k: int): (r: seq<byte>)
    ensures |r| == (if k > 0 then k else 0)
  {
    if k <= 0 then [] else [ZERO] + Zeros(k - 1)
  }

  lemma {:induction false} ZerosAreZeros(k: int)
    ensures forall i | 0 <= i < |Zeros(k)| :: Zeros(k)[i] == ZERO
    decreases k
  {
    if k > 0 {
      ZerosAreZeros(k - 1);
    }
  }

  lemma {:induction false} ValueOfZeros(z: seq<byte>)
    requires forall i | 0 <= i < |z| :: z[i] == ZERO
    ensures AllDigits(z) && Value(z) == 0
  {
    if z != [] {
      ValueOfZeros(z[..|z| - 1]);
    }
  }

  /** Leading zeros do not change the value. */
  lemma {:induction false} ValueLeadingZeros(k: int, d: seq<byte>)
    requires AllDigits(d)
    ensures AllDigits(Zeros(k) + d) && Value(Zeros(k) + d) == Value(d)
  {
    var s := Zeros(k) + d;
    ZerosAreZeros(k);
    if d == [] {
      assert s == Zeros(k);
      ValueOfZeros(Zeros(k));
    } else {
      assert s[..|s| - 1] == Zeros(k) + d[..|d| - 1];
      assert AllDigits(d[..|d| - 1]);
      ValueLeadingZeros(k, d[..|d| - 1]);
    }
  }

  function Abs(n: int): nat {
    if n < 0 then -n else n
  }

  /** `format!("{:0w$}", n)`: the digits of `n`, a `-` in front when negative, zeros after the sign up to width `w`. */
  function Padded(n: int, w: nat): (r: seq<byte>)
  {
    var d := Digits(Abs(n));
    if n < 0 then [MINUS] + (Zeros(w - 1 - |d|) + d) else Zeros(w - |d|) + d
  }

  /** Only digits and the minus sign are written, never more than needed for `w`. */
  lemma PaddedShape(n: int, w: nat)
    ensures var r := Padded(n, w); var sign := if n < 0 then 1 else 0;
      && |r| == (if w > sign + |Digits(Abs(n))| then w else sign + |Digits(Abs(n))|)
      && (forall i | 0 <= i < |r| :: IsDigit(r[i]) || (i == 0 && r[i] == MINUS))
      && (r[0] == MINUS <==> n < 0)
  {
    DigitsAreDigits(Abs(n));
    ZerosAreZeros(w - 1 - |Digits(Abs(n))|);
    ZerosAreZeros(w - |Digits(Abs(n))|);
  }

  /** Reads back an optionally negative decimal. */
  function ReadInt(s: seq<byte>): Option<int> {
    if |s| > 1 && s[0] == MINUS && AllDigits(s[1..]) then Some(0 - Value(s[1..]))
    else if |s| > 0 && AllDigits(s) then Some(Value(s))
    else None
  }

  /** The reader undoes the formatting, whatever the width. */
  lemma ReadPadded(n: int, w: nat)
    ensures ReadInt(Padded(n, w)) == Some(n)
  {
    if n < 0 {
      ReadPaddedNegative(n, w);
    } else {
      ReadPaddedNonNegative(n, w);
    }
  }

  lemma ReadPaddedNonNegative(n: int, w: nat)
    requires n >= 0
    ensures ReadInt(Padded(n, w)) == Some(n)
  {
    var d := Digits(Abs(n));
    var k := w - |d|;
    assert Padded(n, w) == Zeros(k) + d;
    ValueOfDigits(Abs(n));
    ValueLeadingZeros(k, d);
    ReadUnsigned(Zeros(k) + d);
  }

  lemma ReadPaddedNegative(n: int, w: nat)
    requires n < 0
    ensures ReadInt(Padded(n, w)) == Some(n)
  {
    var d := Digits(Abs(n));
    ValueOfDigits(Abs(n));
    ReadZeroPadded(w - 1 - |d|, d, n);
  }

  /** A minus sign, zeros, then the digits of `-n`, read back as `n`. */
  lemma ReadZeroPadded(k: int, d: seq<byte>, n: int)
    requires |d| > 0 && AllDigits(d) && Value(d) == -n
    ensures ReadInt([MINUS] + (Zeros(k) + d)) == Some(n)
  {
    ValueLeadingZeros(k, d);
    ReadNegative(Zeros(k) + d, n);
  }

  lemma ReadUnsigned(s: seq<byte>)
    requires |s| > 0 && AllDigits(s)
    ensures ReadInt(s) == Some(Value(s))
  {
    assert s[0] != MINUS by {
      assert IsDigit(s[0]);
    }
  }

  lemma ReadNegative(s: seq<byte>, n: int)
    requires |s| > 0 && AllDigits(s) && Value(s) == -n
    ensures ReadInt([MINUS] + s) == Some(n)
  {
    assert ([MINUS] + s)[1..] == s;
  }

  lemma NoByteOfPadded(n: int, w: nat, c: byte)
    requires c != MINUS && !IsDigit(c)
    ensures NoByte(Padded(n, w), c)
  {
    PaddedShape(n, w);
  }
}

/**
 `Recording::create_chapters`: the chapter file for mkvmerge, two lines per
 death, `CHAPTERnn=HH:MM:SS.mmm` and `CHAPTERnnNAME=<name>`, numbered from 1,
 the time relative to the start of the recording. `ReadChapters` is the
 reader that recovers index, offset and name from that text.
 */
module Chapters {
  import opened Wrappers
  import opened Scan
  import opened Events
  import opened Decimal

  const CHAPTER: seq<byte> := [67, 72, 65, 80, 84, 69, 82]
  const AME_EQ: seq<byte> := [65, 77, 69, 61]
  const N: byte := 78
  const EQ: byte := 61
  const COLON: byte := 58
  const DOT: byte := 46

  /** A death as the recording keeps it: when, and who. */
  type Death = (Time, seq<byte>)

  /** `a`, then the byte `c`, then `b`. */
  function Joined(a: seq<byte>, c: byte, b: seq<byte>): seq<byte> {
    a + [c] + b
  }

  /** The text before the first `c` and the text after it. */
  function Split(s: seq<byte>, c: byte): Option<(seq<byte>, seq<byte>)> {
    match Memchr(s, c)
    case None => None
    case Some(n) => Some((s[..n], s[n + 1..]))
  }

  lemma SplitJoined(a: seq<byte>, c: byte, b: seq<byte>)
    requires NoByte(a, c)
    ensures Split(Joined(a, c, b), c) == Some((a, b))
  {
    var s := Joined(a, c, b);
    MemchrJoined(a, c, b);
    assert s[..|a|] == a;
    assert s[|a| + 1..] == b;
  }

  lemma {:induction false} MemchrJoined(a: seq<byte>, c: byte, b: seq<byte>)
    requires NoByte(a, c)
    ensures Memchr(Joined(a, c, b), c) == Some(|a|)
    decreases |a|
  {
    var s := Joined(a, c, b);
    if a != [] {
      assert s[0] == a[0];
      assert s[1..] == Joined(a[1..], c, b);
      MemchrJoined(a[1..], c, b);
    }
  }

  /** The fields of a delta of `d` milliseconds: `num_hours`, `num_minutes % 60`, `num_seconds % 60`, `num_milliseconds % 1000`. */
  function TimeFields(d: int): (int, int, int, int) {
    var secs := TDiv(d, 1000);
    (TDiv(secs, 3600), TRem(TDiv(secs, 60), 60), TRem(secs, 60), TRem(d, 1000))
  }

  /**
   On a delta that is not negative the fields are the hours (not reduced
   modulo 24), the minutes and seconds within the hour and minute, and the
   milliseconds within the second.
   */
  lemma TimeFieldsOfNonNegative(d: nat)
    ensures TimeFields(d) == (d / 3600000, (d / 60000) % 60, (d / 1000) % 60, d % 1000)
  {
    var secs := d / 1000;
    assert secs / 3600 == d / 3600000;
    assert secs / 60 == d / 60000;
  }

  /** The fields always rebuild the delta, and each is within its range and carries the delta's sign. */
  lemma TimeFieldsRebuild(d: int)
    ensures var (h, m, s, ms) := TimeFields(d);
      && h * 3600000 + m * 60000 + s * 1000 + ms == d
      && -60 < m < 60 && -60 < s < 60 && -1000 < ms < 1000
      && (d >= 0 ==> h >= 0 && m >= 0 && s >= 0 && ms >= 0)
      && (d <= 0 ==> h <= 0 && m <= 0 && s <= 0 && ms <= 0)
  {
    var secs := TDiv(d, 1000);
    var mins := TDiv(secs, 60);
    TruncDivRem(d, 1000);
    TruncDivRem(secs, 60);
    TruncDivRem(mins, 60);
    NestedTDiv(secs);
  }

  /** Hours from seconds, in one step or through minutes. */
  lemma NestedTDiv(secs: int)
    ensures TDiv(TDiv(secs, 60), 60) == TDiv(secs, 3600)
  {
    if secs >= 0 {
      assert (secs / 60) / 60 == secs / 3600;
    } else {
      assert ((-secs) / 60) / 60 == (-secs) / 3600;
    }
  }

  /** `{:02}:{:02}:{:02}.{:03}` of the four fields. */
  function TimeText(d: int): seq<byte> {
    var f := TimeFields(d);
    FieldsText(f.0, f.1, f.2, f.3)
  }

  function FieldsText(h: int, m: int, s: int, ms: int): seq<byte> {
    Joined(Padded(h, 2), COLON, Joined(Padded(m, 2), COLON, Joined(Padded(s, 2), DOT, Padded(ms, 3))))
  }

  /** `CHAPTER{:02}={time}` */
  function TimeLine(idx: int, d: int): seq<byte> {
    CHAPTER + Joined(Padded(idx, 2), EQ, TimeText(d))
  }

  /** `CHAPTER{:02}NAME={name}` */
  function NameLine(idx: int, name: seq<byte>): seq<byte> {
    CHAPTER + Joined(Padded(idx, 2), N, AME_EQ + name)
  }

  /** One chapter: its index, its offset from the start in milliseconds, the name. */
  datatype Chapter = Chapter(index: int, offset: int, name: seq<byte>)

  /** The two lines `create_chapters` writes for a chapter, each ended by a newline. */
  function Render(c: Chapter): seq<byte> {
    Joined(TimeLine(c.index, c.offset), NL, Joined(NameLine(c.index, c.name), NL, []))
  }

  /** The parts one after the other, as a loop appending to one string builds them. */
  function Concat(parts: seq<seq<byte>>): seq<byte> {
    if parts == [] then [] else Concat(parts[..|parts| - 1]) + parts[|parts| - 1]
  }

  /** `f` applied to every element, in order. */
  function Map<A, B>(f: A -> B, xs: seq<A>): (r: seq<B>)
    ensures |r| == |xs| && forall k | 0 <= k < |xs| :: r[k] == f(xs[k])
  {
    seq(|xs|, k requires 0 <= k < |xs| => f(xs[k]))
  }

  lemma MapAppend<A, B>(f: A -> B, xs: seq<A>, x: A)
    ensures Map(f, xs + [x]) == Map(f, xs) + [f(x)]
  {
  }

  /** The chapter of every death, numbered from 1 in the order recorded, timed from `start`. */
  function ChaptersOf(deaths: seq<Death>, start: Time): (r: seq<Chapter>)
    ensures |r| == |deaths|
  {
    seq(|deaths|, k requires 0 <= k < |deaths| => Chapter(k + 1, deaths[k].0 - start, deaths[k].1))
  }

  /** `create_chapters(starttime)` over the recorded deaths. */
  function CreateChapters(deaths: seq<Death>, start: Time): seq<byte> {
    Concat(Map(Render, ChaptersOf(deaths, start)))
  }

  function ReadTime(t: seq<byte>): Option<int> {
    match Split(t, COLON)
    case None => None
    case Some((h, t1)) =>
      match Split(t1, COLON)
      case None => None
      case Some((m, t2)) =>
        match Split(t2, DOT)
        case None => None
        case Some((s, ms)) =>
          match (ReadInt(h), ReadInt(m), ReadInt(s), ReadInt(ms))
          case (Some(h), Some(m), Some(s), Some(ms)) => Some(Total(h, m, s, ms))
          case _ => None
  }

  /** After `CHAPTER`: `idx`, then `sep`, then the rest. */
  function ReadIndexed(line: seq<byte>, sep: byte): Option<(int, seq<byte>)> {
    if |line| < |CHAPTER| || line[..|CHAPTER|] != CHAPTER then None
    else match Split(line[|CHAPTER|..], sep)
      case None => None
      case Some((i, rest)) =>
        match ReadInt(i)
        case None => None
        case Some(idx) => Some((idx, rest))
  }

  function ReadEntry(timeLine: seq<byte>, nameLine: seq<byte>): Option<Chapter> {
    match (ReadIndexed(timeLine, EQ), ReadIndexed(nameLine, N))
    case (Some((i, t)), Some((j, rest))) =>
      if i != j || |rest| < |AME_EQ| || rest[..|AME_EQ|] != AME_EQ then None
      else (
        match ReadTime(t)
        case None => None
        case Some(d) => Some(Chapter(i, d, rest[|AME_EQ|..])))
    case _ => None
  }

  /** Reads pairs of newline-terminated lines, each pair by `read`. */
  function ReadPairs(read: (seq<byte>, seq<byte>) -> Option<Chapter>, s: seq<byte>): Option<seq<Chapter>>
    decreases |s|
  {
    if s == [] then Some([])
    else match Split(s, NL)
      case None => None
      case Some((l1, r1)) =>
        match Split(r1, NL)
        case None => None
        case Some((l2, r2)) =>
          match (read(l1, l2), ReadPairs(read, r2))
          case (Some(c), Some(cs)) => Some([c] + cs)
          case _ => None
  }

  /** Reads a chapter file back, one chapter from each pair of lines. */
  function ReadChapters(s: seq<byte>): Option<seq<Chapter>> {
    ReadPairs(ReadEntry, s)
  }

  /** The reader on four numerals joined by `:`, `:` and `.`. */
  lemma ReadTimeParts(a: seq<byte>, b: seq<byte>, c: seq<byte>, e: seq<byte>, h: int, m: int, s: int, ms: int)
    requires NoByte(a, COLON) && NoByte(b, COLON) && NoByte(c, DOT)
    requires ReadInt(a) == Some(h) && ReadInt(b) == Some(m) && ReadInt(c) == Some(s) && ReadInt(e) == Some(ms)
    ensures ReadTime(Joined(a, COLON, Joined(b, COLON, Joined(c, DOT, e)))) == Some(Total(h, m, s, ms))
  {
    SplitJoined(a, COLON, Joined(b, COLON, Joined(c, DOT, e)));
    SplitJoined(b, COLON, Joined(c, DOT, e));
    SplitJoined(c, DOT, e);
  }

  /** The reader on four fields formatted as `create_chapters` formats them. */
  lemma ReadTimeOfFields(h: int, m: int, s: int, ms: int)
    ensures ReadTime(FieldsText(h, m, s, ms)) == Some(Total(h, m, s, ms))
  {
    NoByteOfPadded(h, 2, COLON);
    NoByteOfPadded(m, 2, COLON);
    NoByteOfPadded(s, 2, DOT);
    ReadPadded(h, 2);
    ReadPadded(m, 2);
    ReadPadded(s, 2);
    ReadPadded(ms, 3);
    ReadTimeParts(Padded(h, 2), Padded(m, 2), Padded(s, 2), Padded(ms, 3), h, m, s, ms);
  }

  /** The milliseconds four fields stand for. */
  function Total(h: int, m: int, s: int, ms: int): int {
    h * 3600000 + m * 60000 + s * 1000 + ms
  }

  lemma ReadFieldsOf(fields: int -> (int, int, int, int), d: int)
    requires var f := fields(d); Total(f.0, f.1, f.2, f.3) == d
    ensures var f := fields(d); ReadTime(FieldsText(f.0, f.1, f.2, f.3)) == Some(d)
  {
    var f := fields(d);
    ReadTimeOfFields(f.0, f.1, f.2, f.3);
  }

  /** The time text reads back as the delta it was made from, negative deltas included. */
  lemma ReadTimeText(d: int)
    ensures ReadTime(TimeText(d)) == Some(d)
  {
    TimeFieldsRebuild(d);
    ReadFieldsOf(TimeFields, d);
  }

  /** The reader on `CHAPTER`, a numeral, `sep` and the rest. */
  lemma ReadIndexedParts(p: seq<byte>, sep: byte, rest: seq<byte>, idx: int)
    requires NoByte(p, sep) && ReadInt(p) == Some(idx)
    ensures ReadIndexed(CHAPTER + Joined(p, sep, rest), sep) == Some((idx, rest))
  {
    var line := CHAPTER + Joined(p, sep, rest);
    assert line[..|CHAPTER|] == CHAPTER;
    assert line[|CHAPTER|..] == Joined(p, sep, rest);
    SplitJoined(p, sep, rest);
  }

  lemma ReadEntryParts(t: seq<byte>, name: seq<byte>, p: seq<byte>, idx: int, d: int)
    requires NoByte(p, EQ) && NoByte(p, N) && ReadInt(p) == Some(idx) && ReadTime(t) == Some(d)
    ensures ReadEntry(CHAPTER + Joined(p, EQ, t), CHAPTER + Joined(p, N, AME_EQ + name)) == Some(Chapter(idx, d, name))
  {
    ReadIndexedParts(p, EQ, t, idx);
    ReadIndexedParts(p, N, AME_EQ + name, idx);
    assert (AME_EQ + name)[..|AME_EQ|] == AME_EQ;
    assert (AME_EQ + name)[|AME_EQ|..] == name;
  }

  lemma ReadEntryOf(idx: int, d: int, name: seq<byte>)
    ensures ReadEntry(TimeLine(idx, d), NameLine(idx, name)) == Some(Chapter(idx, d, name))
  {
    NoByteOfPadded(idx, 2, EQ);
    NoByteOfPadded(idx, 2, N);
    ReadPadded(idx, 2);
    ReadTimeText(d);
    ReadEntryParts(TimeText(d), name, Padded(idx, 2), idx, d);
  }

  lemma NoNewlineInTime(d: int)
    ensures NoByte(TimeText(d), NL)
  {
    var (h, m, s, ms) := TimeFields(d);
    NoByteOfPadded(h, 2, NL);
    NoByteOfPadded(m, 2, NL);
    NoByteOfPadded(s, 2, NL);
    NoByteOfPadded(ms, 3, NL);
    NoByteJoined(Padded(s, 2), DOT, Padded(ms, 3), NL);
    NoByteJoined(Padded(m, 2), COLON, Joined(Padded(s, 2), DOT, Padded(ms, 3)), NL);
    NoByteJoined(Padded(h, 2), COLON, Joined(Padded(m, 2), COLON, Joined(Padded(s, 2), DOT, Padded(ms, 3))), NL);
  }

  lemma NoByteJoined(a: seq<byte>, c: byte, b: seq<byte>, x: byte)
    requires NoByte(a, x) && c != x && NoByte(b, x)
    ensures NoByte(Joined(a, c, b), x)
  {
  }

  lemma NoNewlineInLines(idx: int, d: int, name: seq<byte>)
    requires NoByte(name, NL)
    ensures NoByte(TimeLine(idx, d), NL) && NoByte(NameLine(idx, name), NL)
  {
    NoNewlineInTimeLine(idx, d);
    NoNewlineInNameLine(idx, name);
  }

  lemma NoNewlineInTimeLine(idx: int, d: int)
    ensures NoByte(TimeLine(idx, d), NL)
  {
    NoByteOfPadded(idx, 2, NL);
    NoNewlineInTime(d);
    NoByteJoined(Padded(idx, 2), EQ, TimeText(d), NL);
  }

  lemma NoNewlineInNameLine(idx: int, name: seq<byte>)
    requires NoByte(name, NL)
    ensures NoByte(NameLine(idx, name), NL)
  {
    NoByteOfPadded(idx, 2, NL);
    NoByteJoined(Padded(idx, 2), N, AME_EQ + name, NL);
  }

  /** The reader on two newline-terminated lines and what follows them. */
  lemma ReadChaptersStep(read: (seq<byte>, seq<byte>) -> Option<Chapter>, l1: seq<byte>, l2: seq<byte>, rest: seq<byte>, c: Chapter, cs: seq<Chapter>)
    requires NoByte(l1, NL) && NoByte(l2, NL)
    requires read(l1, l2) == Some(c) && ReadPairs(read, rest) == Some(cs)
    ensures ReadPairs(read, Joined(l1, NL, Joined(l2, NL, rest))) == Some([c] + cs)
  {
    SplitJoined(l1, NL, Joined(l2, NL, rest));
    SplitJoined(l2, NL, rest);
  }

  /** `p` is the line `l1`, then the line `l2`, each ended by a newline. */
  predicate IsEntry(p: seq<byte>, l1: seq<byte>, l2: seq<byte>) {
    p == Joined(l1, NL, Joined(l2, NL, [])) && NoByte(l1, NL) && NoByte(l2, NL)
  }

  /** The reader takes one entry off the front. */
  lemma ReadEntryThen(read: (seq<byte>, seq<byte>) -> Option<Chapter>, p: seq<byte>, l1: seq<byte>, l2: seq<byte>, rest: seq<byte>, c: Chapter, cs: seq<Chapter>)
    requires IsEntry(p, l1, l2) && read(l1, l2) == Some(c) && ReadPairs(read, rest) == Some(cs)
    ensures ReadPairs(read, p + rest) == Some([c] + cs)
  {
    EntryThen(l1, l2, rest);
    ReadChaptersStep(read, l1, l2, rest, c, cs);
  }

  lemma EntryThen(l1: seq<byte>, l2: seq<byte>, rest: seq<byte>)
    ensures Joined(l1, NL, Joined(l2, NL, [])) + rest == Joined(l1, NL, Joined(l2, NL, rest))
  {
  }

  lemma {:induction false} ConcatFront(parts: seq<seq<byte>>)
    requires parts != []
    ensures Concat(parts) == parts[0] + Concat(parts[1..])
    decreases |parts|
  {
    if |parts| > 1 {
      var init := parts[..|parts| - 1];
      assert init[0] == parts[0];
      assert init[1..] == parts[1..][..|parts| - 2];
      ConcatFront(init);
    } else {
      assert parts[1..] == [];
    }
  }

  /**
   The reader on chapters rendered one after the other gives them back in
   order, whatever the rendering, as long as each chapter renders as two
   lines that read back as that chapter.
   */
  lemma {:induction false} ReadRendered(read: (seq<byte>, seq<byte>) -> Option<Chapter>, render: Chapter -> seq<byte>,
                                       line1: Chapter -> seq<byte>, line2: Chapter -> seq<byte>, cs: seq<Chapter>)
    requires forall c | c in cs :: IsEntry(render(c), line1(c), line2(c)) && read(line1(c), line2(c)) == Some(c)
    ensures ReadPairs(read, Concat(Map(render, cs))) == Some(cs)
    decreases |cs|
  {
    if cs != [] {
      ConcatMapFront(render, cs);
      InTail(cs);
      ReadRendered(read, render, line1, line2, cs[1..]);
      ReadEntryThen(read, render(cs[0]), line1(cs[0]), line2(cs[0]), Concat(Map(render, cs[1..])), cs[0], cs[1..]);
      HeadTail(cs);
    }
  }

  lemma InTail<T>(xs: seq<T>)
    requires xs != []
    ensures forall x | x in xs[1..] :: x in xs
  {
  }

  lemma HeadTail<T>(xs: seq<T>)
    requires xs != []
    ensures [xs[0]] + xs[1..] == xs
  {
  }

  lemma ConcatMapFront<A>(f: A -> seq<byte>, xs: seq<A>)
    requires xs != []
    ensures Concat(Map(f, xs)) == f(xs[0]) + Concat(Map(f, xs[1..]))
  {
    var parts := Map(f, xs);
    ConcatFront(parts);
    assert parts[1..] == Map(f, xs[1..]);
  }

  function TimeLineOf(c: Chapter): seq<byte> {
    TimeLine(c.index, c.offset)
  }

  function NameLineOf(c: Chapter): seq<byte> {
    NameLine(c.index, c.name)
  }

  /** A chapter renders as its two lines, and they read back as that chapter, if the name holds no newline. */
  lemma RenderReads(c: Chapter)
    requires NoByte(c.name, NL)
    ensures IsEntry(Render(c), TimeLineOf(c), NameLineOf(c)) && ReadEntry(TimeLineOf(c), NameLineOf(c)) == Some(c)
  {
    NoNewlineInLines(c.index, c.offset, c.name);
    ReadEntryOf(c.index, c.offset, c.name);
  }

  lemma NamesOfChapters(deaths: seq<Death>, start: Time)
    requires NamesOnOneLine(deaths)
    ensures forall c | c in ChaptersOf(deaths, start) :: NoByte(c.name, NL)
  {
    var cs := ChaptersOf(deaths, start);
    forall c | c in cs
      ensures NoByte(c.name, NL)
    {
      var k :| 0 <= k < |cs| && cs[k] == c;
    }
  }

  lemma RenderAllRead(cs: seq<Chapter>)
    requires forall c | c in cs :: NoByte(c.name, NL)
    ensures forall c | c in cs :: IsEntry(Render(c), TimeLineOf(c), NameLineOf(c)) && ReadEntry(TimeLineOf(c), NameLineOf(c)) == Some(c)
  {
    forall c | c in cs
      ensures IsEntry(Render(c), TimeLineOf(c), NameLineOf(c)) && ReadEntry(TimeLineOf(c), NameLineOf(c)) == Some(c)
    {
      RenderReads(c);
    }
  }

  predicate NamesOnOneLine(deaths: seq<Death>) {
    forall k | 0 <= k < |deaths| :: NoByte(deaths[k].1, NL)
  }

  /**
   The chapter file reads back as one chapter per death, in order, numbered
   from 1, with the death's offset from the start and its name unchanged,
   when no name holds a newline.
   */
  lemma ReadCreateChapters(deaths: seq<Death>, start: Time)
    requires NamesOnOneLine(deaths)
    ensures var r := ReadChapters(CreateChapters(deaths, start));
      && r.Some? && |r.value| == |deaths|
      && forall k | 0 <= k < |deaths| :: r.value[k] == Chapter(k + 1, deaths[k].0 - start, deaths[k].1)
  {
    var cs := ChaptersOf(deaths, start);
    NamesOfChapters(deaths, start);
    RenderAllRead(cs);
    ReadRendered(ReadEntry, Render, TimeLineOf, NameLineOf, cs);
  }

  /**
   `add_death` and `create_chapters` agree: one more death appends exactly
   one more pair of lines, numbered after the others, and leaves the earlier
   chapters as they were.
   */
  lemma ChaptersAppend(deaths: seq<Death>, time: Time, name: seq<byte>, start: Time)
    ensures CreateChapters(deaths + [(time, name)], start) ==
      CreateChapters(deaths, start) + Render(Chapter(|deaths| + 1, time - start, name))
  {
    var c := Chapter(|deaths| + 1, time - start, name);
    assert ChaptersOf(deaths + [(time, name)], start) == ChaptersOf(deaths, start) + [c];
    MapAppend(Render, ChaptersOf(deaths, start), c);
    var parts := Map(Render, ChaptersOf(deaths, start) + [c]);
    assert parts[..|parts| - 1] == Map(Render, ChaptersOf(deaths, start));
  }
}
