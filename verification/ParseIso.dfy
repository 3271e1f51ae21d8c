/**
  `parse_iso`: the five forms of a date or date and time, as the code reads them and as a
  grammar, and the proof that the two agree.
*/
module ParseIso {
  import opened Decimals
  import opened Slices
  import opened Wrappers

  datatype ParserError = ParserError

  /** The 9-tuple that `parse_iso` returns. */
  datatype Fields = Fields(year: int, month: int, day: int, hour: int, minute: int, second: int, hasTz: int,
      tzOffsetMinutes: int, consumed: nat)

  // ----- what the code reads -----

  /** `_take_digits`. */
  function TakeDigits(s: string, pos: nat, count: nat): Result<(int, nat), ParserError> {
    if pos + count > |s| || !AllDigits(s[pos..pos + count]) then Err(ParserError)
    else Ok((Decimal(s[pos..pos + count]), pos + count))
  }

  /** `_expect`. */
  function Expect(s: string, pos: nat, ch: char): Result<nat, ParserError> {
    if pos >= |s| || s[pos] != ch then Err(ParserError) else Ok(pos + 1)
  }

  function ReadDate(s: string): Result<(int, int, int, nat), ParserError> {
    var (year, p1) :- TakeDigits(s, 0, 4);
    var p2 :- Expect(s, p1, '-');
    var (month, p3) :- TakeDigits(s, p2, 2);
    var p4 :- Expect(s, p3, '-');
    var (day, p5) :- TakeDigits(s, p4, 2);
    if month < 1 || month > 12 || day < 1 || day > 31 then Err(ParserError) else Ok((year, month, day, p5))
  }

  function ReadTime(s: string, pos: nat): Result<(int, int, int, nat), ParserError> {
    var p1 :- Expect(s, pos, 'T');
    var (hour, p2) :- TakeDigits(s, p1, 2);
    var p3 :- Expect(s, p2, ':');
    var (minute, p4) :- TakeDigits(s, p3, 2);
    var p5 :- Expect(s, p4, ':');
    var (second, p6) :- TakeDigits(s, p5, 2);
    if hour > 23 || minute > 59 || second > 60 then Err(ParserError) else Ok((hour, minute, second, p6))
  }

  function ReadOffset(s: string, pos: nat, sign: int): Result<(int, int, nat), ParserError> {
    var (oh, p1) :- TakeDigits(s, pos, 2);
    var p2 :- Expect(s, p1, ':');
    var (om, p3) :- TakeDigits(s, p2, 2);
    if oh > 23 || om > 59 then Err(ParserError) else Ok((2, sign * (oh * 60 + om), p3))
  }

  /** The time zone, if there is more text. */
  function ReadZone(s: string, pos: nat): Result<(int, int, nat), ParserError> {
    if pos >= |s| then Ok((0, 0, pos))
    else if s[pos] == 'Z' then Ok((1, 0, pos + 1))
    else if s[pos] == '+' then ReadOffset(s, pos + 1, 1)
    else if s[pos] == '-' then ReadOffset(s, pos + 1, -1)
    else Err(ParserError)
  }

  function Read(s: string): Result<Fields, ParserError> {
    var (year, month, day, p) :- ReadDate(s);
    if p == |s| then Ok(Fields(year, month, day, 0, 0, 0, 0, 0, p))
    else
      var (hour, minute, second, q) :- ReadTime(s, p);
      var (hasTz, offset, end) :- ReadZone(s, q);
      if end != |s| then Err(ParserError)
      else Ok(Fields(year, month, day, hour, minute, second, hasTz, offset, end))
  }

  // ----- the loops -----

  method TakeDigitsLoop(s: string, pos: nat, count: nat) returns (r: Result<(int, nat), ParserError>)
    ensures r == TakeDigits(s, pos, count)
  {
    if pos + count > |s| {
      return Err(ParserError);
    }
    var chunk := s[pos..pos + count];
    for i := 0 to |chunk|
      invariant AllDigits(chunk[..i])
    {
      if !IsDigit(chunk[i]) {
        return Err(ParserError);
      }
    }
    assert chunk[..|chunk|] == chunk;
    r := Ok((Decimal(chunk), pos + count));
  }

  method Parse(src: string) returns (r: Result<Fields, ParserError>)
    ensures r == Read(src)
  {
    if src == "" {
      return Err(ParserError);
    }
    var pos := 0;
    var taken :- TakeDigitsLoop(src, pos, 4);
    var year := taken.0;
    pos := taken.1;
    pos :- Expect(src, pos, '-');
    taken :- TakeDigitsLoop(src, pos, 2);
    var month := taken.0;
    pos := taken.1;
    pos :- Expect(src, pos, '-');
    taken :- TakeDigitsLoop(src, pos, 2);
    var day := taken.0;
    pos := taken.1;
    if month < 1 || month > 12 {
      return Err(ParserError);
    }
    if day < 1 || day > 31 {
      return Err(ParserError);
    }
    var hour, minute, second, hasTz, tzOffsetMinutes := 0, 0, 0, 0, 0;
    if pos == |src| {
      return Ok(Fields(year, month, day, hour, minute, second, hasTz, tzOffsetMinutes, pos));
    }
    var time :- ParseTime(src, pos);
    hour, minute, second, pos := time.0, time.1, time.2, time.3;
    if pos == |src| {
      return Ok(Fields(year, month, day, hour, minute, second, hasTz, tzOffsetMinutes, pos));
    }
    var ch := src[pos];
    if ch == 'Z' {
      hasTz := 1;
      pos := pos + 1;
    } else if ch == '+' || ch == '-' {
      var sign := if ch == '+' then 1 else -1;
      pos := pos + 1;
      var offset :- ParseOffset(src, pos, sign);
      hasTz, tzOffsetMinutes, pos := offset.0, offset.1, offset.2;
    } else {
      return Err(ParserError);
    }
    if pos != |src| {
      return Err(ParserError);
    }
    r := Ok(Fields(year, month, day, hour, minute, second, hasTz, tzOffsetMinutes, pos));
  }

  method ParseTime(src: string, start: nat) returns (r: Result<(int, int, int, nat), ParserError>)
    ensures r == ReadTime(src, start)
  {
    var pos := start;
    pos :- Expect(src, pos, 'T');
    var taken :- TakeDigitsLoop(src, pos, 2);
    var hour := taken.0;
    pos := taken.1;
    pos :- Expect(src, pos, ':');
    taken :- TakeDigitsLoop(src, pos, 2);
    var minute := taken.0;
    pos := taken.1;
    pos :- Expect(src, pos, ':');
    taken :- TakeDigitsLoop(src, pos, 2);
    var second := taken.0;
    pos := taken.1;
    if hour > 23 || minute > 59 || second > 60 {
      return Err(ParserError);
    }
    r := Ok((hour, minute, second, pos));
  }

  method ParseOffset(src: string, start: nat, sign: int) returns (r: Result<(int, int, nat), ParserError>)
    ensures r == ReadOffset(src, start, sign)
  {
    var pos := start;
    var taken :- TakeDigitsLoop(src, pos, 2);
    var oh := taken.0;
    pos := taken.1;
    pos :- Expect(src, pos, ':');
    taken :- TakeDigitsLoop(src, pos, 2);
    var om := taken.0;
    pos := taken.1;
    if oh > 23 || om > 59 {
      return Err(ParserError);
    }
    r := Ok((2, sign * (oh * 60 + om), pos));
  }

  // ----- the grammar -----

  datatype Zone = Naive | Utc | Offset(east: bool, hours: nat, minutes: nat)

  datatype Stamp =
    | Date(year: nat, month: nat, day: nat)
    | DateTime(year: nat, month: nat, day: nat, hour: nat, minute: nat, second: nat, zone: Zone)

  predicate DateOk(year: nat, month: nat, day: nat) {
    year <= 9999 && 1 <= month <= 12 && 1 <= day <= 31
  }

  predicate TimeOk(hour: nat, minute: nat, second: nat) {
    hour <= 23 && minute <= 59 && second <= 60
  }

  predicate ZoneOk(z: Zone) {
    z.Offset? ==> z.hours <= 23 && z.minutes <= 59
  }

  predicate StampOk(st: Stamp) {
    DateOk(st.year, st.month, st.day)
    && (st.DateTime? ==> TimeOk(st.hour, st.minute, st.second) && ZoneOk(st.zone))
  }

  function ShowDate(year: nat, month: nat, day: nat): (s: string)
    ensures |s| == 10
  {
    Padded(year, 4) + ("-" + (Padded(month, 2) + ("-" + Padded(day, 2))))
  }

  function ShowTime(hour: nat, minute: nat, second: nat): (s: string)
    ensures |s| == 9
  {
    "T" + (Padded(hour, 2) + (":" + (Padded(minute, 2) + (":" + Padded(second, 2)))))
  }

  function ShowZone(z: Zone): string {
    match z
    case Naive => ""
    case Utc => "Z"
    case Offset(east, hours, minutes) => [if east then '+' else '-'] + (Padded(hours, 2) + (":" + Padded(minutes, 2)))
  }

  function Show(st: Stamp): string {
    match st
    case Date(year, month, day) => ShowDate(year, month, day)
    case DateTime(year, month, day, hour, minute, second, zone) =>
      ShowDate(year, month, day) + (ShowTime(hour, minute, second) + ShowZone(zone))
  }

  function ZoneFields(z: Zone): (int, int) {
    match z
    case Naive => (0, 0)
    case Utc => (1, 0)
    case Offset(east, hours, minutes) => (2, if east then hours * 60 + minutes else -(hours * 60 + minutes))
  }

  /** What a stamp says, as the 9-tuple. */
  function FieldsOf(st: Stamp): Fields {
    match st
    case Date(year, month, day) => Fields(year, month, day, 0, 0, 0, 0, 0, |Show(st)|)
    case DateTime(year, month, day, hour, minute, second, zone) =>
      Fields(year, month, day, hour, minute, second, ZoneFields(zone).0, ZoneFields(zone).1, |Show(st)|)
  }

  // ----- the code reads exactly the grammar -----

  lemma {:induction false} TakesDigits(s: string, pos: nat, count: nat, n: int)
    ensures TakeDigits(s, pos, count) == Ok((n, pos + count)) <==> 0 <= n < Pow10(count) && At(s, pos, Padded(n, count))
  {
    if pos + count <= |s| && AllDigits(s[pos..pos + count]) {
      DecimalRoundTrip(s[pos..pos + count]);
    }
    if 0 <= n < Pow10(count) {
      PaddedRoundTrip(n, count);
    }
  }

  lemma {:induction false} Expects(s: string, pos: nat, ch: char)
    ensures Expect(s, pos, ch) == Ok(pos + 1) <==> At(s, pos, [ch])
  {
  }

  lemma {:induction false} DateAt(s: string, year: nat, month: nat, day: nat)
    ensures At(s, 0, ShowDate(year, month, day)) <==>
            At(s, 0, Padded(year, 4)) && At(s, 4, "-") && At(s, 5, Padded(month, 2)) && At(s, 7, "-")
                && At(s, 8, Padded(day, 2))
  {
  }

  lemma {:induction false} TakesTwo(s: string, pos: nat, n: int)
    ensures TakeDigits(s, pos, 2) == Ok((n, pos + 2)) <==> 0 <= n <= 99 && At(s, pos, Padded(n, 2))
  {
    TakesDigits(s, pos, 2, n);
    assert Pow10(2) == 100;
  }

  lemma {:induction false} TakesFour(s: string, pos: nat, n: int)
    ensures TakeDigits(s, pos, 4) == Ok((n, pos + 4)) <==> 0 <= n <= 9999 && At(s, pos, Padded(n, 4))
  {
    TakesDigits(s, pos, 4, n);
    assert Pow10(2) == 100 && Pow10(4) == 10000;
  }

  lemma {:induction false} ReadsDate(s: string, year: int, month: int, day: int)
    ensures ReadDate(s) == Ok((year, month, day, 10)) <==>
            0 <= year && 0 <= month && 0 <= day && DateOk(year, month, day) && At(s, 0, ShowDate(year, month, day))
  {
    TakesFour(s, 0, year);
    Expects(s, 4, '-');
    TakesTwo(s, 5, month);
    Expects(s, 7, '-');
    TakesTwo(s, 8, day);
    if 0 <= year && 0 <= month && 0 <= day {
      DateAt(s, year, month, day);
    }
  }

  /** Two digits, a separator and what follows. */
  lemma {:induction false} PairAt(s: string, pos: nat, n: nat, ch: char, rest: string)
    ensures At(s, pos, Padded(n, 2) + ([ch] + rest)) <==>
            At(s, pos, Padded(n, 2)) && At(s, pos + 2, [ch]) && At(s, pos + 3, rest)
  {
    AtConcat(s, pos, Padded(n, 2), [ch] + rest);
    AtConcat(s, pos + 2, [ch], rest);
  }

  lemma {:induction false} TimeAt(s: string, pos: nat, hour: nat, minute: nat, second: nat)
    ensures At(s, pos, ShowTime(hour, minute, second)) <==>
            && At(s, pos, "T") && At(s, pos + 1, Padded(hour, 2)) && At(s, pos + 3, ":")
            && At(s, pos + 4, Padded(minute, 2)) && At(s, pos + 6, ":") && At(s, pos + 7, Padded(second, 2))
  {
    AtConcat(s, pos, "T", Padded(hour, 2) + (":" + (Padded(minute, 2) + (":" + Padded(second, 2)))));
    PairAt(s, pos + 1, hour, ':', Padded(minute, 2) + (":" + Padded(second, 2)));
    PairAt(s, pos + 4, minute, ':', Padded(second, 2));
  }

  lemma {:induction false} ReadsTime(s: string, pos: nat, hour: int, minute: int, second: int)
    ensures ReadTime(s, pos) == Ok((hour, minute, second, pos + 9)) <==>
            0 <= hour && 0 <= minute && 0 <= second && TimeOk(hour, minute, second)
                && At(s, pos, ShowTime(hour, minute, second))
  {
    Expects(s, pos, 'T');
    TakesTwo(s, pos + 1, hour);
    Expects(s, pos + 3, ':');
    TakesTwo(s, pos + 4, minute);
    Expects(s, pos + 6, ':');
    TakesTwo(s, pos + 7, second);
    if 0 <= hour && 0 <= minute && 0 <= second {
      TimeAt(s, pos, hour, minute, second);
    }
  }

  function ShowOffset(hours: nat, minutes: nat): string {
    Padded(hours, 2) + (":" + Padded(minutes, 2))
  }

  lemma {:induction false} OffsetFound(s: string, pos: nat, sign: int) returns (hours: nat, minutes: nat)
    requires ReadOffset(s, pos, sign).Ok?
    ensures hours <= 23 && minutes <= 59 && At(s, pos, ShowOffset(hours, minutes))
    ensures ReadOffset(s, pos, sign) == Ok((2, sign * (hours * 60 + minutes), pos + 5))
  {
    var oh, om := TakeDigits(s, pos, 2).value.0, TakeDigits(s, pos + 3, 2).value.0;
    TakesTwo(s, pos, oh);
    Expects(s, pos + 2, ':');
    TakesTwo(s, pos + 3, om);
    hours, minutes := oh, om;
    AtConcat(s, pos, Padded(hours, 2), ":" + Padded(minutes, 2));
    AtConcat(s, pos + 2, ":", Padded(minutes, 2));
  }

  lemma {:induction false} ReadsOffset(s: string, pos: nat, sign: int, hours: nat, minutes: nat)
    requires hours <= 23 && minutes <= 59 && At(s, pos, ShowOffset(hours, minutes))
    ensures ReadOffset(s, pos, sign) == Ok((2, sign * (hours * 60 + minutes), pos + 5))
  {
    AtConcat(s, pos, Padded(hours, 2), ":" + Padded(minutes, 2));
    AtConcat(s, pos + 2, ":", Padded(minutes, 2));
    TakesTwo(s, pos, hours);
    Expects(s, pos + 2, ':');
    TakesTwo(s, pos + 3, minutes);
  }

  lemma {:induction false} ZoneFound(s: string, pos: nat) returns (z: Zone)
    requires pos <= |s| && ReadZone(s, pos).Ok? && ReadZone(s, pos).value.2 == |s|
    ensures ZoneOk(z) && At(s, pos, ShowZone(z)) && pos + |ShowZone(z)| == |s|
    ensures (ReadZone(s, pos).value.0, ReadZone(s, pos).value.1) == ZoneFields(z)
  {
    if pos == |s| {
      z := Naive;
    } else if s[pos] == 'Z' {
      z := Utc;
    } else {
      var east := s[pos] == '+';
      var hours, minutes := OffsetFound(s, pos + 1, if east then 1 else -1);
      z := Offset(east, hours, minutes);
      AtConcat(s, pos, [s[pos]], ShowOffset(hours, minutes));
    }
  }

  lemma {:induction false} ReadsZone(s: string, pos: nat, z: Zone)
    requires ZoneOk(z) && At(s, pos, ShowZone(z)) && pos + |ShowZone(z)| == |s|
    ensures ReadZone(s, pos) == Ok((ZoneFields(z).0, ZoneFields(z).1, |s|))
  {
    match z
    case Naive =>
    case Utc => AtFirst(s, pos, "Z");
    case Offset(east, hours, minutes) =>
      var sign := if east then '+' else '-';
      AtConcat(s, pos, [sign], ShowOffset(hours, minutes));
      AtFirst(s, pos, [sign] + ShowOffset(hours, minutes));
      ReadsOffset(s, pos + 1, if east then 1 else -1, hours, minutes);
  }

  lemma Whole(s: string, t: string)
    ensures At(s, 0, t) && |t| == |s| <==> s == t
  {
  }

  /** Every stamp in range is accepted, and read as what it says. */
  lemma {:induction false} ReadsStamp(st: Stamp)
    requires StampOk(st)
    ensures Read(Show(st)) == Ok(FieldsOf(st))
  {
    var s := Show(st);
    Whole(s, s);
    match st
    case Date(year, month, day) =>
      ReadsDate(s, year, month, day);
    case DateTime(year, month, day, hour, minute, second, zone) =>
      AtConcat(s, 0, ShowDate(year, month, day), ShowTime(hour, minute, second) + ShowZone(zone));
      AtConcat(s, 10, ShowTime(hour, minute, second), ShowZone(zone));
      ReadsDate(s, year, month, day);
      ReadsTime(s, 10, hour, minute, second);
      ReadsZone(s, 19, zone);
  }

  /** Everything that is accepted is a stamp in range, all of it. */
  lemma {:induction false} StampFound(s: string) returns (st: Stamp)
    requires Read(s).Ok?
    ensures StampOk(st) && Show(st) == s && Read(s) == Ok(FieldsOf(st))
  {
    var date := ReadDate(s).value;
    ReadsDate(s, date.0, date.1, date.2);
    var shown := ShowDate(date.0, date.1, date.2);
    if date.3 == |s| {
      st := Date(date.0, date.1, date.2);
      Whole(s, shown);
    } else {
      var time := ReadTime(s, 10).value;
      ReadsTime(s, 10, time.0, time.1, time.2);
      var z := ZoneFound(s, 19);
      st := DateTime(date.0, date.1, date.2, time.0, time.1, time.2, z);
      AtConcat(s, 10, ShowTime(time.0, time.1, time.2), ShowZone(z));
      AtConcat(s, 0, shown, ShowTime(time.0, time.1, time.2) + ShowZone(z));
      Whole(s, Show(st));
    }
  }

  /** The accepted language, and the meaning of each text in it. */
  lemma {:induction false} AcceptsExactlyStamps(s: string, f: Fields)
    ensures Read(s) == Ok(f) <==> exists st :: StampOk(st) && Show(st) == s && FieldsOf(st) == f
  {
    if Read(s).Ok? {
      var st := StampFound(s);
    }
    if st :| StampOk(st) && Show(st) == s && FieldsOf(st) == f {
      ReadsStamp(st);
    }
  }

  // ----- the fields determine the text -----

  /** A zero offset, east in one and west in the other or the same in both. */
  predicate ZeroOffsets(y: Zone, z: Zone) {
    y.Offset? && z.Offset? && y.hours == z.hours == 0 && y.minutes == z.minutes == 0
  }

  lemma {:induction false} FieldsDetermineZone(y: Zone, z: Zone)
    requires ZoneOk(y) && ZoneOk(z)
    ensures ZoneFields(y) == ZoneFields(z) <==> y == z || ZeroOffsets(y, z)
    ensures ZoneFields(y) == ZoneFields(z) ==> |ShowZone(y)| == |ShowZone(z)|
  {
  }

  /** The same but for zero offsets. */
  predicate ZeroTwins(x: Stamp, y: Stamp) {
    x.DateTime? && y.DateTime? && y == x.(zone := y.zone) && ZeroOffsets(x.zone, y.zone)
  }

  lemma {:induction false} FieldsDetermineStamp(x: Stamp, y: Stamp)
    requires StampOk(x) && StampOk(y)
    ensures FieldsOf(x) == FieldsOf(y) <==> x == y || ZeroTwins(x, y)
  {
    if x.DateTime? && y.DateTime? {
      FieldsDetermineZone(x.zone, y.zone);
    }
  }

  lemma ZoneLength(z: Zone)
    ensures |ShowZone(z)| == if z.Naive? then 0 else if z.Utc? then 1 else 6
  {
  }

  /** Texts that differ only in the sign of an offset of zero. */
  predicate SignTwins(s: string, t: string) {
    && |s| == |t| == 25 && s[..19] == t[..19] && s[20..] == t[20..] == "00:00"
    && (s[19] == '+' || s[19] == '-') && (t[19] == '+' || t[19] == '-')
  }

  lemma ZeroOffset()
    ensures ShowOffset(0, 0) == "00:00"
  {
  }

  lemma {:induction false} ShowParts(st: Stamp)
    requires st.DateTime? && st.zone.Offset?
    ensures |Show(st)| == 25 && Show(st)[19] == (if st.zone.east then '+' else '-')
    ensures Show(st)[..19] == ShowDate(st.year, st.month, st.day) + ShowTime(st.hour, st.minute, st.second)
    ensures Show(st)[20..] == ShowOffset(st.zone.hours, st.zone.minutes)
  {
  }

  lemma {:induction false} OffsetIsZero(hours: nat, minutes: nat)
    requires hours <= 23 && minutes <= 59 && ShowOffset(hours, minutes) == "00:00"
    ensures hours == 0 && minutes == 0
  {
    PaddedRoundTrip(hours, 2);
    PaddedRoundTrip(minutes, 2);
    assert Padded(hours, 2) == ShowOffset(hours, minutes)[..2] == "00";
    assert Padded(minutes, 2) == ShowOffset(hours, minutes)[3..] == "00";
    assert Decimal("00") == 0 by {
      PaddedRoundTrip(0, 2);
      ZeroOffset();
    }
  }

  lemma {:induction false} TwinsShow(x: Stamp, t: string) returns (y: Stamp)
    requires StampOk(x) && SignTwins(Show(x), t)
    ensures StampOk(y) && Show(y) == t && ZeroTwins(x, y)
  {
    if x.DateTime? {
      ZoneLength(x.zone);
    }
    ShowParts(x);
    OffsetIsZero(x.zone.hours, x.zone.minutes);
    y := x.(zone := Offset(t[19] == '+', 0, 0));
    ShowParts(y);
    assert t == t[..19] + [t[19]] + t[20..];
    assert Show(y) == Show(y)[..19] + [Show(y)[19]] + Show(y)[20..];
  }

  /** Two accepted texts are read alike only if they are the same, but for the sign of a zero offset. */
  lemma {:induction false} FieldsDetermineText(s: string, t: string)
    requires Read(s).Ok? && Read(t).Ok?
    ensures Read(s) == Read(t) <==> s == t || SignTwins(s, t)
  {
    var x := StampFound(s);
    var y := StampFound(t);
    FieldsDetermineStamp(x, y);
    if ZeroTwins(x, y) {
      ShowParts(x);
      ShowParts(y);
      ZeroOffset();
    }
    if SignTwins(s, t) {
      var z := TwinsShow(x, t);
      ReadsStamp(z);
      FieldsDetermineStamp(x, z);
    }
  }

  // ----- rendering the fields -----

  function ZoneOf(hasTz: int, offset: int): Zone {
    if hasTz == 0 then Naive
    else if hasTz == 1 then Utc
    else if offset >= 0 then Offset(true, offset / 60, offset % 60)
    else Offset(false, -offset / 60, -offset % 60)
  }

  /** A stamp that says what the fields do. */
  function StampOf(f: Fields): Stamp
    requires 0 <= f.year && 0 <= f.month && 0 <= f.day && 0 <= f.hour && 0 <= f.minute && 0 <= f.second
  {
    if f.consumed == 10 then Date(f.year, f.month, f.day)
    else DateTime(f.year, f.month, f.day, f.hour, f.minute, f.second, ZoneOf(f.hasTz, f.tzOffsetMinutes))
  }

  lemma {:induction false} StampOfFields(st: Stamp)
    requires StampOk(st)
    ensures StampOk(StampOf(FieldsOf(st))) && FieldsOf(StampOf(FieldsOf(st))) == FieldsOf(st)
  {
  }

  /** Rendering what was read and reading it again gives the same fields. */
  lemma {:induction false} RenderedFields(s: string, f: Fields)
    requires Read(s) == Ok(f)
    ensures 0 <= f.year && 0 <= f.month && 0 <= f.day && 0 <= f.hour && 0 <= f.minute && 0 <= f.second
    ensures StampOk(StampOf(f)) && Read(Show(StampOf(f))) == Ok(f)
  {
    var st := StampFound(s);
    StampOfFields(st);
    ReadsStamp(StampOf(f));
  }

  /** The numbers each of the nine fields can hold. */
  predicate InRange(f: Fields) {
    && 0 <= f.year <= 9999 && 1 <= f.month <= 12 && 1 <= f.day <= 31
    && 0 <= f.hour <= 23 && 0 <= f.minute <= 59 && 0 <= f.second <= 60
    && if f.consumed == 10 then f.hour == f.minute == f.second == f.hasTz == f.tzOffsetMinutes == 0
       else if f.hasTz == 2 then f.consumed == 25 && -1439 <= f.tzOffsetMinutes <= 1439
       else f.tzOffsetMinutes == 0 && (f.hasTz, f.consumed) in {(0, 19), (1, 20)}
  }

  lemma {:induction false} StampInRange(st: Stamp)
    requires StampOk(st)
    ensures InRange(FieldsOf(st))
  {
    if st.DateTime? && st.zone.Offset? {
      assert |ShowZone(st.zone)| == 6;
    }
  }

  lemma {:induction false} RangeHasStamp(f: Fields)
    requires InRange(f)
    ensures StampOk(StampOf(f)) && FieldsOf(StampOf(f)) == f
  {
    var st := StampOf(f);
    if st.DateTime? && st.zone.Offset? {
      assert |ShowZone(st.zone)| == 6;
    }
  }

  /** What can be read: all fields in range, and nothing else. */
  lemma {:induction false} ReadRange(f: Fields)
    ensures (exists s :: Read(s) == Ok(f)) <==> InRange(f)
  {
    if s :| Read(s) == Ok(f) {
      var st := StampFound(s);
      StampInRange(st);
    }
    if InRange(f) {
      RangeHasStamp(f);
      ReadsStamp(StampOf(f));
    }
  }

  // ----- what the range tests let through -----

  lemma {:induction false} TwoDigits(n: nat)
    requires n < 100
    ensures Padded(n, 2) == [Digit(n / 10), Digit(n % 10)]
  {
    assert Padded(n / 100, 0) == "";
    assert Padded(n / 10, 1) == Padded(n / 10 / 10, 0) + [Digit(n / 10 % 10)];
    assert Padded(n, 2) == Padded(n / 10, 1) + [Digit(n % 10)];
  }

  lemma {:induction false} YearText()
    ensures Padded(2023, 4) == "2023"
  {
    TwoDigits(20);
    assert Padded(202, 3) == Padded(20, 2) + ['2'];
    assert Padded(2023, 4) == Padded(202, 3) + ['3'];
  }

  lemma {:induction false} DateText(day: nat, text: string)
    requires text == Padded(day, 2)
    ensures ShowDate(2023, 2, day) == "2023-02-" + text
  {
    YearText();
    TwoDigits(2);
  }

  lemma {:induction false} DayTexts()
    ensures ShowDate(2023, 2, 31) == "2023-02-31" && ShowDate(2023, 2, 1) == "2023-02-01"
  {
    TwoDigits(31);
    DateText(31, "31");
    TwoDigits(1);
    DateText(1, "01");
  }

  lemma {:induction false} TimeText()
    ensures ShowTime(0, 0, 60) == "T00:00:60"
  {
    TwoDigits(0);
    TwoDigits(60);
  }

  lemma {:induction false} ReadsDateAs(year: nat, month: nat, day: nat, text: string)
    requires DateOk(year, month, day) && text == ShowDate(year, month, day)
    ensures Read(text) == Ok(Fields(year, month, day, 0, 0, 0, 0, 0, 10))
  {
    ReadsStamp(Date(year, month, day));
  }

  lemma {:induction false} ReadsUtcAs(st: Stamp, date: string, time: string, text: string)
    requires StampOk(st) && st.DateTime? && st.zone.Utc? && date == ShowDate(st.year, st.month, st.day)
    requires time == ShowTime(st.hour, st.minute, st.second) && text == date + (time + "Z")
    ensures Read(text) == Ok(Fields(st.year, st.month, st.day, st.hour, st.minute, st.second, 1, 0, 20))
  {
    ReadsStamp(st);
  }

  /** The day is compared with 31 in every month. */
  lemma {:induction false} FebruaryHas31Days()
    ensures Read("2023-02-31") == Ok(Fields(2023, 2, 31, 0, 0, 0, 0, 0, 10))
  {
    DayTexts();
    ReadsDateAs(2023, 2, 31, "2023-02-31");
  }

  lemma UtcText()
    ensures "2023-02-01" + ("T00:00:60" + "Z") == "2023-02-01T00:00:60Z"
  {
  }

  /** The second is compared with 60 in every minute. */
  lemma {:induction false} MinuteHas61Seconds()
    ensures Read("2023-02-01T00:00:60Z") == Ok(Fields(2023, 2, 1, 0, 0, 60, 1, 0, 20))
  {
    DayTexts();
    TimeText();
    UtcText();
    ReadsUtcAs(DateTime(2023, 2, 1, 0, 0, 60, Utc), "2023-02-01", "T00:00:60", "2023-02-01T00:00:60Z");
  }

  lemma {:induction false} MorningText()
    ensures ShowTime(3, 4, 5) == "T03:04:05" && Padded(6, 2) == "06" && Padded(30, 2) == "30"
  {
    TwoDigits(3);
    TwoDigits(4);
    TwoDigits(5);
    TwoDigits(6);
    TwoDigits(30);
  }

  lemma WestText()
    ensures "-" + ("06" + (":" + "30")) == "-06:30" && "T03:04:05" + "-06:30" == "T03:04:05-06:30"
    ensures "2023-02-01" + "T03:04:05-06:30" == "2023-02-01T03:04:05-06:30"
  {
  }

  lemma {:induction false} ReadsOffsetAs(st: Stamp, date: string, time: string, zone: string, text: string, offset: int)
    requires StampOk(st) && st.DateTime? && st.zone.Offset? && date == ShowDate(st.year, st.month, st.day)
    requires time == ShowTime(st.hour, st.minute, st.second) && zone == ShowZone(st.zone)
    requires text == date + (time + zone) && offset == ZoneFields(st.zone).1
    ensures Read(text) == Ok(Fields(st.year, st.month, st.day, st.hour, st.minute, st.second, 2, offset, |text|))
  {
    ReadsStamp(st);
  }

  /** An offset counts in minutes, and to the west it is negative. */
  lemma {:induction false} OffsetExample()
    ensures Read("2023-02-01T03:04:05-06:30") == Ok(Fields(2023, 2, 1, 3, 4, 5, 2, -390, 25))
  {
    DayTexts();
    MorningText();
    WestText();
    ReadsOffsetAs(DateTime(2023, 2, 1, 3, 4, 5, Offset(false, 6, 30)), "2023-02-01", "T03:04:05", "-06:30",
                  "2023-02-01T03:04:05-06:30", -390);
  }
}
