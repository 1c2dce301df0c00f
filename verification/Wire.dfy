/** The DC1-INSTALL-V1 session header, read line by line from the buffered reader. */
module Wire {
  import opened Bytes
  import opened Outcomes
  import opened Streams

  const MIN_IMAGE_BYTES := 8 * 1024 * 1024

  datatype Header = Header(size: int, sha256: seq<byte>, answers: seq<byte>, unprovisioned: bool)

  type Decoder = seq<byte> -> Option<seq<byte>>

  // ----- lines

  /** `TrimRight(line, "\r\n")`. */
  function Trim(line: seq<byte>): (r: seq<byte>)
    ensures r <= line
  {
    if line != [] && (line[|line| - 1] == 10 || line[|line| - 1] == 13) then Trim(line[..|line| - 1]) else line
  }

  /** Position of the first `=`, or the length when there is none. */
  function EqualsAt(s: seq<byte>): (k: nat)
    ensures k <= |s| && (k < |s| ==> s[k] == 61)
    ensures forall i :: 0 <= i < k ==> s[i] != 61
  {
    if s == [] || s[0] == 61 then 0 else 1 + EqualsAt(s[1..])
  }

  predicate IsDecimal(b: byte) { 48 <= b <= 57 }

  predicate IsHex(b: byte) { 48 <= b <= 57 || 97 <= b <= 102 }

  function Digits(s: seq<byte>): int {
    if s == [] then 0 else 10 * Digits(s[..|s| - 1]) + (s[|s| - 1] as int - 48)
  }

  /** `ParseInt(value, 10, 64)`. */
  function ParseInt(s: seq<byte>): Option<int> {
    var neg := s != [] && s[0] == 45;
    var d := if s != [] && (s[0] == 45 || s[0] == 43) then s[1..] else s;
    if d == [] || exists i :: 0 <= i < |d| && !IsDecimal(d[i]) then None
    else
      var n := if neg then -Digits(d) else Digits(d);
      if -0x8000_0000_0000_0000 <= n < 0x8000_0000_0000_0000 then Some(n) else None
  }

  // ----- the header as a function of the stream

  /** The fields seen so far; a repeated line overwrites the earlier one. */
  datatype Fields = Fields(size: Option<int>, sha256: Option<seq<byte>>, answers: seq<byte>, unprovisioned: bool)

  const NO_FIELDS := Fields(None, None, [], false)

  function Magic(): seq<byte> { Ascii("DC1-INSTALL-V1") }

  function ApplyLine(f: Fields, line: seq<byte>, decode: Decoder): Option<Fields> {
    var k := EqualsAt(line);
    if k == |line| then None
    else
      var (key, value) := (line[..k], line[k + 1..]);
      if key == Ascii("size") then
        var n := ParseInt(value);
        if n.None? then None else Some(f.(size := n))
      else if key == Ascii("sha256") then
        if |value| != 64 || exists i :: 0 <= i < 64 && !IsHex(value[i]) then None else Some(f.(sha256 := Some(value)))
      else if key == Ascii("answers") then
        var d := decode(value);
        if d.None? then None else Some(f.(answers := d.value))
      else if key == Ascii("unprovisioned") then Some(f.(unprovisioned := value == Ascii("1")))
      else None
  }

  function Finish(f: Fields): Option<Header> {
    if f.size.None? || f.sha256.None? || f.size.value < MIN_IMAGE_BYTES then None
    else if f.unprovisioned then Some(Header(f.size.value, f.sha256.value, [], true))
    else if f.answers == [] then None
    else Some(Header(f.size.value, f.sha256.value, f.answers, false))
  }

  /** The header lines up to the blank one: the header and the stream after it. */
  function Lines(s: seq<byte>, f: Fields, decode: Decoder): Option<(Header, seq<byte>)>
    decreases |s|
  {
    var k := NewlineAt(s);
    if k == |s| then None
    else
      var (line, rest) := (Trim(s[..k + 1]), s[k + 1..]);
      if line == [] then
        var h := Finish(f);
        if h.None? then None else Some((h.value, rest))
      else
        var g := ApplyLine(f, line, decode);
        if g.None? then None else Lines(rest, g.value, decode)
  }

  /** What a session stream says: its header, and the stream from the first byte of the body. */
  function HeaderOf(s: seq<byte>, decode: Decoder): Option<(Header, seq<byte>)> {
    var k := NewlineAt(s);
    if k == |s| || Trim(s[..k + 1]) != Magic() then None else Lines(s[k + 1..], NO_FIELDS, decode)
  }

  // ----- what an accepted header is

  predicate IsDigest(value: seq<byte>) {
    |value| == 64 && forall i :: 0 <= i < 64 ==> IsHex(value[i])
  }

  /** The hex digits, one by one. */
  function HexDigit(n: nat): byte
    requires n < 16
  {
    Ascii("0123456789abcdef")[n]
  }

  lemma HexListed(b: byte)
    ensures IsHex(b) <==> exists n: nat | n < 16 :: HexDigit(n) == b
  {
    hide HexDigit;
    if 48 <= b <= 57 {
      DigitAt(b - 48);
    } else if 97 <= b <= 102 {
      DigitAt(b - 87);
    }
    if exists n: nat | n < 16 :: HexDigit(n) == b {
      var n: nat :| n < 16 && HexDigit(n) == b;
      DigitAt(n);
    }
  }

  lemma DigitAt(n: nat)
    requires n < 16
    ensures HexDigit(n) as int == if n < 10 then 48 + n else 87 + n
  {
  }

  /** Large enough, with a well-formed digest, and with answers exactly when an account is to be set up. */
  predicate Sound(h: Header) {
    MIN_IMAGE_BYTES <= h.size < 0x8000_0000_0000_0000 && IsDigest(h.sha256) && (h.unprovisioned <==> h.answers == [])
  }

  predicate FieldsSound(f: Fields) {
    (f.size.Some? ==> f.size.value < 0x8000_0000_0000_0000) && (f.sha256.Some? ==> IsDigest(f.sha256.value))
  }

  lemma ApplySound(f: Fields, line: seq<byte>, decode: Decoder)
    requires FieldsSound(f) && ApplyLine(f, line, decode).Some?
    ensures FieldsSound(ApplyLine(f, line, decode).value)
  {
    hide Ascii, Digits, EqualsAt;
  }

  lemma {:induction false} LinesSound(s: seq<byte>, f: Fields, decode: Decoder)
    requires FieldsSound(f) && Lines(s, f, decode).Some?
    ensures var (h, body) := Lines(s, f, decode).value;
            Sound(h) && |body| < |s| && body == s[|s| - |body|..] && s[|s| - |body| - 1] == 10
    decreases |s|
  {
    hide ApplyLine, Trim, IsDigest, Finish, FieldsSound, Sound;
    var k := NewlineAt(s);
    var line := Trim(s[..k + 1]);
    if line == [] {
      FinishSound(f);
      BodyFollows(s, k, s[k + 1..]);
    } else {
      var g := ApplyLine(f, line, decode).value;
      ApplySound(f, line, decode);
      LinesSound(s[k + 1..], g, decode);
      BodyFollows(s, k, Lines(s[k + 1..], g, decode).value.1);
    }
  }

  lemma FinishSound(f: Fields)
    requires FieldsSound(f) && Finish(f).Some?
    ensures Sound(Finish(f).value)
  {
    hide IsDigest;
  }

  /** Behind a newline of the part after a newline, or right behind that one. */
  lemma BodyFollows(s: seq<byte>, k: nat, body: seq<byte>)
    requires k < |s| && s[k] == 10
    requires var t := s[k + 1..];
             body == t || (|body| < |t| && body == t[|t| - |body|..] && t[|t| - |body| - 1] == 10)
    ensures |body| < |s| && body == s[|s| - |body|..] && s[|s| - |body| - 1] == 10
  {
  }

  /** Whatever the stream, an accepted header is sound, and the body is what follows one of its newlines. */
  lemma HeaderSound(s: seq<byte>, decode: Decoder)
    requires HeaderOf(s, decode).Some?
    ensures var (h, body) := HeaderOf(s, decode).value;
            Sound(h) && |body| < |s| && body == s[|s| - |body|..] && s[|s| - |body| - 1] == 10
  {
    hide Lines, IsDigest;
    LinesSound(s[NewlineAt(s) + 1..], NO_FIELDS, decode);
  }

  // ----- the reader

  /** `ParseHeader`: however the socket splits the stream, an accepted header is the one the stream
      spells, and the reader is left at the first byte of the body. When the socket itself does not
      fail, the header is accepted exactly when the stream spells one. */
  method ParseHeader(r: BufReader, decode: Decoder) returns (res: Result<Header>)
    requires r.Valid()
    modifies r, r.conn
    ensures r.Valid()
    ensures IsRest(old(r.Rest()), r.Rest())
    ensures res.Ok? ==> HeaderOf(old(r.Rest()), decode) == Some((res.value, r.Rest()))
    ensures r.conn.reliable ==> (res.Ok? <==> HeaderOf(old(r.Rest()), decode).Some?)
  {
    hide NewlineAt, ApplyLine, Finish, Magic, Trim, IsRest;
    ghost var s0 := r.Rest();
    RestOfAll(s0);
    var line, e := r.ReadLine();
    RestOfRest(s0, s0, line, r.Rest());
    if e != NoErr {
      assert s0 == line + r.Rest();
      NoLine(line, r.Rest());
      return Err("reading magic");
    }
    SplitLine(line, r.Rest());
    line := Trim(line);
    if line != Magic() {
      return Err("bad magic");
    }
    var f := NO_FIELDS;
    while true
      invariant r.Valid() && IsRest(s0, r.Rest())
      invariant HeaderOf(s0, decode) == Lines(r.Rest(), f, decode)
      decreases |r.Rest()|
    {
      ghost var s := r.Rest();
      line, e := r.ReadLine();
      RestOfRest(s0, s, line, r.Rest());
      if e != NoErr {
        assert s == line + r.Rest();
        NoLine(line, r.Rest());
        return Err("reading header");
      }
      SplitLine(line, r.Rest());
      line := Trim(line);
      if line == [] {
        break;
      }
      var g := ApplyLine(f, line, decode);
      if g.None? {
        return Err("bad header line");
      }
      f := g.value;
    }
    var h := Finish(f);
    return if h.None? then Err("incomplete header") else Ok(h.value);
  }

  lemma SplitLine(line: seq<byte>, rest: seq<byte>)
    requires IsLine(line)
    ensures var s := line + rest;
            NewlineAt(s) == |line| - 1 && s[..|line|] == line && s[|line|..] == rest
  {
    NewlinePrefix(line + rest, |line|);
    assert (line + rest)[..|line|] == line;
  }

  lemma NoLine(line: seq<byte>, rest: seq<byte>)
    requires NewlineAt(line) == |line|
    ensures rest == [] ==> NewlineAt(line + rest) == |line + rest|
  {
    if rest == [] {
      assert line + rest == line;
    }
  }

  // ----- writing a header, as the host does

  function Decimal(n: nat): seq<byte> {
    if n < 10 then [48 + n] else Decimal(n / 10) + [48 + n % 10]
  }

  function Line(key: string, value: seq<byte>): seq<byte> {
    Ascii(key) + ([61] + value)
  }

  /** The header text of a session: `answers` is the encoded form of the answers, if there are any. */
  function Spell(h: Header, answers: seq<byte>): seq<byte>
    requires h.size >= 0
  {
    (Magic() + [10]) + ((Line("size", Decimal(h.size)) + [10]) + ((Line("sha256", h.sha256) + [10])
      + (((if h.unprovisioned then Line("unprovisioned", Ascii("1")) else Line("answers", answers)) + [10]) + [10])))
  }

  /** A header the format can carry. */
  predicate Spellable(h: Header, answers: seq<byte>, decode: Decoder) {
    && MIN_IMAGE_BYTES <= h.size < 0x8000_0000_0000_0000
    && |h.sha256| == 64 && (forall i :: 0 <= i < 64 ==> IsHex(h.sha256[i]))
    && (if h.unprovisioned then h.answers == []
        else h.answers != [] && decode(answers) == Some(h.answers) && OneLine(answers))
  }

  /** No newline in it, and not ending in a carriage return. */
  predicate OneLine(s: seq<byte>) {
    (forall i :: 0 <= i < |s| ==> s[i] != 10) && (s != [] ==> s[|s| - 1] != 13)
  }

  lemma {:induction false} DecimalDigits(n: nat)
    ensures var d := Decimal(n);
            d != [] && (forall i :: 0 <= i < |d| ==> IsDecimal(d[i])) && Digits(d) == n
  {
    if n >= 10 {
      DecimalDigits(n / 10);
      var d := Decimal(n);
      assert d[..|d| - 1] == Decimal(n / 10);
    }
  }

  lemma ParseIntDecimal(n: nat)
    requires n < 0x8000_0000_0000_0000
    ensures ParseInt(Decimal(n)) == Some(n) && OneLine(Decimal(n))
  {
    DecimalDigits(n);
    var d := Decimal(n);
    assert IsDecimal(d[0]) && IsDecimal(d[|d| - 1]);
  }

  lemma LineRead(line: seq<byte>, rest: seq<byte>)
    requires OneLine(line)
    ensures var s := (line + [10]) + rest;
            NewlineAt(s) == |line| < |s| && Trim(s[..|line| + 1]) == line && s[|line| + 1..] == rest
  {
    hide NewlineAt, OneLine;
    var s := (line + [10]) + rest;
    NoNewline(line);
    NewlineAppend(line, [10] + rest);
    NewlineHere(rest);
    assert s == line + ([10] + rest);
    assert s[..|line| + 1] == line + [10];
    TrimOne(line);
  }

  lemma NoNewline(line: seq<byte>)
    requires OneLine(line)
    ensures NewlineAt(line) == |line|
  {
  }

  lemma NewlineHere(rest: seq<byte>)
    ensures NewlineAt([10] + rest) == 0
  {
  }

  lemma TrimOne(line: seq<byte>)
    requires OneLine(line)
    ensures Trim(line + [10]) == line
  {
    assert (line + [10])[..|line|] == line;
  }

  predicate PlainKey(key: string) {
    key != "" && forall c :: c in key ==> (c as int) % 256 != 61 && (c as int) % 256 != 10
  }

  lemma KeyRead(key: string, value: seq<byte>)
    requires PlainKey(key) && OneLine(value)
    ensures var line := Line(key, value);
            && OneLine(line) && line != [] && EqualsAt(line) == |key| < |line|
            && line[..|key|] == Ascii(key) && line[|key| + 1..] == value
  {
    var line := Line(key, value);
    assert forall i :: 0 <= i < |key| ==> line[i] == Ascii(key)[i] && key[i] in key;
    assert forall i :: 0 <= i < |value| ==> line[|key| + 1 + i] == value[i];
    assert line[|key|] == 61;
    assert forall i :: |key| < i < |line| ==> line[i] == value[i - |key| - 1];
  }

  lemma KeySize() ensures PlainKey("size") {}

  lemma KeySha() ensures PlainKey("sha256") {}

  lemma KeyAnswers() ensures PlainKey("answers") {}

  lemma KeyUnprovisioned() ensures PlainKey("unprovisioned") {}

  lemma OneIsLine() ensures OneLine(Ascii("1")) {}

  lemma MagicIsLine()
    ensures OneLine(Magic())
  {
    hide OneLine;
    PlainMagic("DC1-INSTALL-V1");
  }

  lemma Keys()
    ensures PlainKey("size") && PlainKey("sha256") && PlainKey("answers") && PlainKey("unprovisioned")
    ensures OneLine(Ascii("1")) && OneLine(Magic())
  {
    hide PlainKey, OneLine, Ascii, Magic;
    KeySize();
    KeySha();
    KeyAnswers();
    KeyUnprovisioned();
    OneIsLine();
    MagicIsLine();
  }

  lemma PlainMagic(s: string)
    requires s != "" && forall c :: c in s ==> 31 < c as int < 128
    ensures OneLine(Ascii(s))
  {
    assert forall i :: 0 <= i < |s| ==> s[i] in s;
  }

  /** One header line of the text is applied and the reading goes on after it. */
  lemma LineApplied(key: string, value: seq<byte>, rest: seq<byte>, f: Fields, decode: Decoder)
    requires PlainKey(key) && OneLine(value)
    ensures Lines((Line(key, value) + [10]) + rest, f, decode)
         == var g := ApplyLine(f, Line(key, value), decode);
            if g.None? then None else Lines(rest, g.value, decode)
  {
    hide NewlineAt, Trim, ApplyLine, Finish, OneLine, PlainKey, EqualsAt, Line;
    KeyRead(key, value);
    LineRead(Line(key, value), rest);
  }

  lemma BlankApplied(rest: seq<byte>, f: Fields, decode: Decoder)
    ensures Lines([10] + rest, f, decode) == var h := Finish(f); if h.None? then None else Some((h.value, rest))
  {
    hide NewlineAt, Trim, ApplyLine, Finish;
    LineRead([], rest);
    assert ([] + [10]) + rest == [10] + rest;
  }

  lemma ApplySize(n: nat, f: Fields, decode: Decoder)
    requires n < 0x8000_0000_0000_0000
    ensures ApplyLine(f, Line("size", Decimal(n)), decode) == Some(f.(size := Some(n)))
  {
    hide EqualsAt, Line, ParseInt, PlainKey, OneLine, Decimal;
    Keys();
    ParseIntDecimal(n);
    KeyRead("size", Decimal(n));
  }

  lemma ApplySha(v: seq<byte>, f: Fields, decode: Decoder)
    requires |v| == 64 && forall i :: 0 <= i < 64 ==> IsHex(v[i])
    ensures OneLine(v) && ApplyLine(f, Line("sha256", v), decode) == Some(f.(sha256 := Some(v)))
  {
    hide EqualsAt, Line, ParseInt, PlainKey;
    Keys();
    assert IsHex(v[63]);
    KeyRead("sha256", v);
  }

  lemma ApplyLast(h: Header, v: seq<byte>, f: Fields, decode: Decoder)
    requires Spellable(h, v, decode)
    ensures h.unprovisioned ==>
              ApplyLine(f, Line("unprovisioned", Ascii("1")), decode) == Some(f.(unprovisioned := true))
    ensures !h.unprovisioned ==>
              OneLine(v) && ApplyLine(f, Line("answers", v), decode) == Some(f.(answers := h.answers))
  {
    hide EqualsAt, Line, ParseInt, PlainKey, OneLine;
    Keys();
    if h.unprovisioned {
      KeyRead("unprovisioned", Ascii("1"));
    } else {
      KeyRead("answers", v);
    }
  }

  /** Reading a spelled header gives the header back and leaves exactly the body. */
  lemma HeaderRoundTrip(h: Header, answers: seq<byte>, body: seq<byte>, decode: Decoder)
    requires Spellable(h, answers, decode)
    ensures HeaderOf(Spell(h, answers) + body, decode) == Some((h, body))
  {
    hide NewlineAt, Trim, ApplyLine, Line, PlainKey, OneLine, Decimal, Magic, Lines;
    Keys();
    ParseIntDecimal(h.size);
    var last := if h.unprovisioned then Line("unprovisioned", Ascii("1")) else Line("answers", answers);
    var (l1, l2, b) := (Line("size", Decimal(h.size)) + [10], Line("sha256", h.sha256) + [10], [10] + body);
    Regroup5(Magic() + [10], l1, l2, last + [10], [10], body);
    LineRead(Magic(), l1 + (l2 + ((last + [10]) + b)));
    LineApplied("size", Decimal(h.size), l2 + ((last + [10]) + b), NO_FIELDS, decode);
    ApplySize(h.size, NO_FIELDS, decode);
    var f1 := NO_FIELDS.(size := Some(h.size));
    ApplySha(h.sha256, f1, decode);
    LineApplied("sha256", h.sha256, (last + [10]) + b, f1, decode);
    var f2 := f1.(sha256 := Some(h.sha256));
    ApplyLast(h, answers, f2, decode);
    if h.unprovisioned {
      LineApplied("unprovisioned", Ascii("1"), b, f2, decode);
      BlankApplied(body, f2.(unprovisioned := true), decode);
    } else {
      LineApplied("answers", answers, b, f2, decode);
      BlankApplied(body, f2.(answers := h.answers), decode);
    }
  }

  lemma Regroup5(a: seq<byte>, b: seq<byte>, c: seq<byte>, d: seq<byte>, e: seq<byte>, f: seq<byte>)
    ensures (a + (b + (c + (d + e)))) + f == a + (b + (c + (d + (e + f))))
  {
  }

  // ----- the header, said of its lines

  /** The lines before the blank one, without their line ends. */
  function HeaderLines(s: seq<byte>): seq<seq<byte>>
    decreases |s|
  {
    var k := NewlineAt(s);
    if k == |s| then []
    else
      var line := Trim(s[..k + 1]);
      if line == [] then [] else [line] + HeaderLines(s[k + 1..])
  }

  /** What follows the blank line, if there is one. */
  function BodyOf(s: seq<byte>): Option<seq<byte>>
    decreases |s|
  {
    var k := NewlineAt(s);
    if k == |s| then None else if Trim(s[..k + 1]) == [] then Some(s[k + 1..]) else BodyOf(s[k + 1..])
  }

  function KeyOf(line: seq<byte>): seq<byte> {
    line[..EqualsAt(line)]
  }

  function ValueOf(line: seq<byte>): seq<byte> {
    if EqualsAt(line) < |line| then line[EqualsAt(line) + 1..] else []
  }

  /** A line has a `=`, one of the four keys before it, and a value that key can have. */
  predicate GoodLine(line: seq<byte>, decode: Decoder) {
    && EqualsAt(line) < |line|
    && (|| (KeyOf(line) == Ascii("size") && ParseInt(ValueOf(line)).Some?)
        || (KeyOf(line) == Ascii("sha256") && IsDigest(ValueOf(line)))
        || (KeyOf(line) == Ascii("answers") && decode(ValueOf(line)).Some?)
        || KeyOf(line) == Ascii("unprovisioned"))
  }

  /** The value of the last line with the key. */
  function LastValue(lines: seq<seq<byte>>, key: seq<byte>): Option<seq<byte>> {
    if lines == [] then None
    else
      var rest := LastValue(lines[1..], key);
      if rest.Some? then rest else if KeyOf(lines[0]) == key then Some(ValueOf(lines[0])) else None
  }

  function ApplyAll(f: Fields, lines: seq<seq<byte>>, decode: Decoder): Option<Fields>
    decreases |lines|
  {
    if lines == [] then Some(f)
    else
      var g := ApplyLine(f, lines[0], decode);
      if g.None? then None else ApplyAll(g.value, lines[1..], decode)
  }

  lemma {:induction false} LinesApply(s: seq<byte>, f: Fields, decode: Decoder)
    ensures var (body, g) := (BodyOf(s), ApplyAll(f, HeaderLines(s), decode));
            Lines(s, f, decode)
            == if body.Some? && g.Some? && Finish(g.value).Some? then Some((Finish(g.value).value, body.value))
               else None
    decreases |s|
  {
    hide ApplyLine, Trim, NewlineAt, Finish;
    var k := NewlineAt(s);
    NewlineWithin(s);
    if k < |s| && Trim(s[..k + 1]) != [] {
      var (line, rest) := (Trim(s[..k + 1]), s[k + 1..]);
      assert ([line] + HeaderLines(rest))[1..] == HeaderLines(rest);
      var g := ApplyLine(f, line, decode);
      if g.Some? {
        LinesApply(rest, g.value, decode);
      }
    }
  }

  lemma NewlineWithin(s: seq<byte>)
    ensures NewlineAt(s) <= |s|
  {
  }

  lemma DistinctKeys()
    ensures Ascii("size") != Ascii("sha256") && Ascii("size") != Ascii("answers")
    ensures Ascii("size") != Ascii("unprovisioned")
    ensures Ascii("sha256") != Ascii("answers") && Ascii("sha256") != Ascii("unprovisioned")
    ensures Ascii("answers") != Ascii("unprovisioned")
  {
    assert |Ascii("size")| == 4 && |Ascii("sha256")| == 6 && |Ascii("answers")| == 7 && |Ascii("unprovisioned")| == 13;
  }

  /** One line is applied exactly when it is good, and sets the field of its key. */
  lemma ApplyExactly(f: Fields, line: seq<byte>, decode: Decoder)
    ensures ApplyLine(f, line, decode).Some? <==> GoodLine(line, decode)
    ensures GoodLine(line, decode) ==>
              var (g, k, v) := (ApplyLine(f, line, decode).value, KeyOf(line), ValueOf(line));
              && g.size == (if k == Ascii("size") then ParseInt(v) else f.size)
              && g.sha256 == (if k == Ascii("sha256") then Some(v) else f.sha256)
              && g.answers == (if k == Ascii("answers") then decode(v).value else f.answers)
              && g.unprovisioned == (if k == Ascii("unprovisioned") then v == Ascii("1") else f.unprovisioned)
  {
    hide Ascii, ParseInt, IsHex, EqualsAt;
    DistinctKeys();
  }

  /** All lines are applied exactly when all are good, and each field has the value of the last line with its key. */
  lemma {:induction false} ApplyAllExactly(f: Fields, lines: seq<seq<byte>>, decode: Decoder)
    ensures ApplyAll(f, lines, decode).Some? <==> forall line :: line in lines ==> GoodLine(line, decode)
    ensures ApplyAll(f, lines, decode).Some? ==>
              var g := ApplyAll(f, lines, decode).value;
              var (size, sha) := (LastValue(lines, Ascii("size")), LastValue(lines, Ascii("sha256")));
              var (answers, un) := (LastValue(lines, Ascii("answers")), LastValue(lines, Ascii("unprovisioned")));
              && g.size == (if size.Some? then ParseInt(size.value) else f.size)
              && g.sha256 == (if sha.Some? then sha else f.sha256)
              && (answers.Some? ==> decode(answers.value).Some?)
              && g.answers == (if answers.Some? then decode(answers.value).value else f.answers)
              && g.unprovisioned == (if un.Some? then un.value == Ascii("1") else f.unprovisioned)
    decreases |lines|
  {
    if lines != [] {
      hide ApplyLine, GoodLine, Ascii, ParseInt, KeyOf, ValueOf;
      assert forall line :: line in lines <==> line == lines[0] || line in lines[1..];
      ApplyExactly(f, lines[0], decode);
      GoodAnswers(lines[0], decode);
      if ApplyLine(f, lines[0], decode).Some? {
        ApplyAllExactly(ApplyLine(f, lines[0], decode).value, lines[1..], decode);
      }
    }
  }

  lemma GoodAnswers(line: seq<byte>, decode: Decoder)
    ensures GoodLine(line, decode) && KeyOf(line) == Ascii("answers") ==> decode(ValueOf(line)).Some?
  {
    hide Ascii;
    DistinctKeys();
  }

  /** What the text of a stream must be for `h` to be its header and `body` the rest. */
  ghost predicate Says(s: seq<byte>, h: Header, body: seq<byte>, decode: Decoder) {
    var k := NewlineAt(s);
    && k < |s| && Trim(s[..k + 1]) == Ascii("DC1-INSTALL-V1")
    && var t := s[k + 1..];
    && BodyOf(t) == Some(body)
    && var lines := HeaderLines(t);
    && (forall line :: line in lines ==> GoodLine(line, decode))
    && LastValue(lines, Ascii("size")).Some? && ParseInt(LastValue(lines, Ascii("size")).value) == Some(h.size)
    && LastValue(lines, Ascii("sha256")) == Some(h.sha256) && h.size >= 8 * 1024 * 1024
    && h.unprovisioned == (LastValue(lines, Ascii("unprovisioned")) == Some(Ascii("1")))
    && (if h.unprovisioned then h.answers == []
        else
          && h.answers != [] && LastValue(lines, Ascii("answers")).Some?
          && decode(LastValue(lines, Ascii("answers")).value) == Some(h.answers))
  }

  /** The header of a stream, exactly: magic line, then good lines only up to a blank one, and the last value of each
      key. An unknown key, a line without `=`, a bad value, a missing size or digest anywhere is refused. */
  lemma HeaderExactly(s: seq<byte>, h: Header, body: seq<byte>, decode: Decoder)
    ensures HeaderOf(s, decode) == Some((h, body)) <==> Says(s, h, body, decode)
  {
    hide NewlineAt, Trim, Ascii, Lines, HeaderLines, BodyOf, LastValue, GoodLine, ParseInt, ApplyAll;
    NewlineWithin(s);
    var k := NewlineAt(s);
    if k < |s| && Trim(s[..k + 1]) == Magic() {
      var t := s[k + 1..];
      LinesApply(t, NO_FIELDS, decode);
      ApplyAllExactly(NO_FIELDS, HeaderLines(t), decode);
    }
  }

  /** A carriage return before the newline makes no difference. */
  lemma CrLfTolerated(line: seq<byte>, rest: seq<byte>, f: Fields, decode: Decoder)
    requires OneLine(line)
    ensures Lines((line + [13, 10]) + rest, f, decode) == Lines((line + [10]) + rest, f, decode)
  {
    hide ApplyLine, NewlineAt, Finish, OneLine, Trim;
    LineRead(line, rest);
    var s := (line + [13, 10]) + rest;
    NoNewline(line);
    NewlineAppend(line, [13]);
    ReturnOnly();
    NewlineAppend(line + [13], [10] + rest);
    NewlineHere(rest);
    assert s == (line + [13]) + ([10] + rest);
    assert s[..|line| + 2] == (line + [13]) + [10] && s[|line| + 2..] == rest;
    TrimTwo(line);
  }

  lemma ReturnOnly()
    ensures NewlineAt([13]) == 1
  {
  }

  lemma TrimTwo(line: seq<byte>)
    requires OneLine(line)
    ensures Trim((line + [13]) + [10]) == line
  {
    TrimStep(line + [13], 10);
    TrimStep(line, 13);
    TrimNot(line);
  }

  lemma TrimStep(line: seq<byte>, b: byte)
    requires b == 10 || b == 13
    ensures Trim(line + [b]) == Trim(line)
  {
    assert (line + [b])[..|line|] == line;
  }

  lemma TrimNot(line: seq<byte>)
    requires OneLine(line)
    ensures Trim(line) == line
  {
  }

  /** Signs and range of a size: `-` and `+` are read, and what does not fit 64 bits is not. */
  lemma ParseIntSigned(n: nat)
    ensures n < 0x8000_0000_0000_0000 ==> ParseInt(Decimal(n)) == ParseInt([43] + Decimal(n)) == Some(n)
    ensures n >= 0x8000_0000_0000_0000 ==> ParseInt(Decimal(n)) == ParseInt([43] + Decimal(n)) == None
    ensures n <= 0x8000_0000_0000_0000 ==> ParseInt([45] + Decimal(n)) == Some(0 - n)
    ensures n > 0x8000_0000_0000_0000 ==> ParseInt([45] + Decimal(n)) == None
  {
    DecimalDigits(n);
    var d := Decimal(n);
    assert IsDecimal(d[0]);
    assert ([43] + d)[1..] == d && ([45] + d)[1..] == d;
  }
}
