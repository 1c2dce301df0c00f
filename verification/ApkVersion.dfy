/**
 Version strings of the Alpine package manager: the grammar, its printer, and the tokenizer as the
 inverse of it.
 */
module ApkVersion {
  import opened Outcomes

  // ----- tokens

  datatype Token =
    | Initial(digits: string)
    | Digit(digits: string)
    | Letter(letter: char)
    | Suffix(rank: nat)
    | SuffixNo(digits: string)
    | Hash(hex: string)
    | Revision(digits: string)

  /** The kind of a token; `Start` stands before the first one. */
  datatype Kind = Start | KInitial | KDigit | KLetter | KSuffix | KSuffixNo | KHash | KRevision

  function KindOf(t: Token): Kind {
    match t
    case Initial(_) => KInitial
    case Digit(_) => KDigit
    case Letter(_) => KLetter
    case Suffix(_) => KSuffix
    case SuffixNo(_) => KSuffixNo
    case Hash(_) => KHash
    case Revision(_) => KRevision
  }

  datatype Class = Dec | Hex | Alpha {
    predicate Has(c: char) {
      match this
      case Dec => '0' <= c <= '9'
      case Hex => '0' <= c <= '9' || 'a' <= c <= 'f'
      case Alpha => 'a' <= c <= 'z' || 'A' <= c <= 'Z'
    }

    predicate All(s: string) {
      forall i :: 0 <= i < |s| ==> Has(s[i])
    }

    /** Length of the longest prefix of characters of this class. */
    function Span(s: string): (n: nat)
      ensures n <= |s| && All(s[..n]) && (n < |s| ==> !Has(s[n]))
    {
      if s == "" || !Has(s[0]) then 0
      else
        var n := 1 + Span(s[1..]);
        assert forall i :: 0 < i < n ==> s[..n][i] == s[1..][..n - 1][i - 1];
        n
    }
  }

  /** The characters of the classes, one by one. */
  lemma DecListed(c: char)
    ensures Dec.Has(c) <==> c in "0123456789"
  {
    if Dec.Has(c) {
      assert "0123456789"[c as int - '0' as int] == c;
    }
  }

  lemma HexListed(c: char)
    ensures Hex.Has(c) <==> c in "0123456789abcdef"
  {
    if '0' <= c <= '9' {
      assert "0123456789abcdef"[c as int - '0' as int] == c;
    } else if 'a' <= c <= 'f' {
      assert "0123456789abcdef"[c as int - 'a' as int + 10] == c;
    }
  }

  const RANK_NONE := 4

  /** The suffix table: everything before rank 4 is a pre-release marker. */
  function NameOf(rank: nat): string {
    match rank
    case 0 => "alpha"
    case 1 => "beta"
    case 2 => "pre"
    case 3 => "rc"
    case 5 => "cvs"
    case 6 => "svn"
    case 7 => "git"
    case 8 => "hg"
    case 9 => "p"
    case _ => ""
  }

  predicate IsRank(rank: nat) {
    rank <= 9 && rank != RANK_NONE
  }

  function RankOf(name: string): Option<nat> {
    if name == "alpha" then Some(0) else if name == "beta" then Some(1) else if name == "pre" then Some(2)
    else if name == "rc" then Some(3) else if name == "cvs" then Some(5) else if name == "svn" then Some(6)
    else if name == "git" then Some(7) else if name == "hg" then Some(8) else if name == "p" then Some(9)
    else None
  }

  lemma RankName(rank: nat)
    requires IsRank(rank)
    ensures RankOf(NameOf(rank)) == Some(rank) && Alpha.All(NameOf(rank)) && NameOf(rank) != ""
  {
  }

  lemma NameRank(name: string)
    requires RankOf(name).Some?
    ensures IsRank(RankOf(name).value) && NameOf(RankOf(name).value) == name
  {
  }

  /** The order of the suffixes: the pre-release ones, then none, then the others. */
  lemma SuffixOrder()
    ensures var names := ["alpha", "beta", "pre", "rc", "cvs", "svn", "git", "hg", "p"];
            && (forall i :: 0 <= i < 9 ==> RankOf(names[i]) == Some(if i < 4 then i else i + 1))
            && RankOf(names[3]).value < RANK_NONE < RankOf(names[4]).value
            && (forall name :: RankOf(name).Some? ==> name in names)
  {
    var names := ["alpha", "beta", "pre", "rc", "cvs", "svn", "git", "hg", "p"];
    forall name | RankOf(name).Some? ensures name in names {
      var r := RankOf(name).value;
      assert name == names[if r < 4 then r else r - 1];
    }
  }

  // ----- the grammar, and printing

  predicate TokenOk(t: Token) {
    match t
    case Letter(c) => 'a' <= c <= 'z'
    case Suffix(rank) => IsRank(rank)
    case Hash(h) => h != "" && Hex.All(h)
    case Initial(d) => d != "" && Dec.All(d)
    case Digit(d) => d != "" && Dec.All(d)
    case SuffixNo(d) => d != "" && Dec.All(d)
    case Revision(d) => d != "" && Dec.All(d)
  }

  /** Which kind may stand directly after which. */
  predicate Follows(prev: Kind, next: Kind) {
    match next
    case Start => false
    case KInitial => prev == Start
    case KDigit => prev == KInitial || prev == KDigit
    case KLetter => prev == KInitial || prev == KDigit
    case KSuffix => prev != Start && prev != KHash && prev != KRevision
    case KSuffixNo => prev == KSuffix
    case KHash => prev != Start && prev != KHash && prev != KRevision
    case KRevision => prev != Start && prev != KRevision
  }

  predicate Grammar(prev: Kind, ts: seq<Token>)
    decreases |ts|
  {
    if ts == [] then prev != Start
    else TokenOk(ts[0]) && Follows(prev, KindOf(ts[0])) && Grammar(KindOf(ts[0]), ts[1..])
  }

  function PrintToken(t: Token): string {
    match t
    case Initial(d) => d
    case Digit(d) => "." + d
    case Letter(c) => [c]
    case Suffix(rank) => "_" + NameOf(rank)
    case SuffixNo(d) => d
    case Hash(h) => "~" + h
    case Revision(d) => "-r" + d
  }

  function Print(ts: seq<Token>): string {
    if ts == [] then "" else PrintToken(ts[0]) + Print(ts[1..])
  }

  // ----- the grammar as a regular expression

  predicate RevisionTail(ts: seq<Token>) {
    ts == [] || (|ts| == 1 && ts[0].Revision?)
  }

  predicate HashTail(ts: seq<Token>) {
    RevisionTail(ts) || (ts != [] && ts[0].Hash? && RevisionTail(ts[1..]))
  }

  /** Suffixes, each with a number or without. */
  predicate SuffixTail(ts: seq<Token>) {
    || HashTail(ts)
    || (ts != [] && ts[0].Suffix? && SuffixTail(ts[1..]))
    || (|ts| >= 2 && ts[0].Suffix? && ts[1].SuffixNo? && SuffixTail(ts[2..]))
  }

  predicate LetterTail(ts: seq<Token>) {
    SuffixTail(ts) || (ts != [] && ts[0].Letter? && SuffixTail(ts[1..]))
  }

  predicate DottedTail(ts: seq<Token>) {
    LetterTail(ts) || (ts != [] && ts[0].Digit? && DottedTail(ts[1..]))
  }

  /** A number; dotted numbers; a letter or none; suffixes; a hash or none; a revision or none. */
  predicate Regular(ts: seq<Token>) {
    ts != [] && ts[0].Initial? && DottedTail(ts[1..])
  }

  predicate AllTokensOk(ts: seq<Token>) {
    ts == [] || (TokenOk(ts[0]) && AllTokensOk(ts[1..]))
  }

  /** What may follow a token of the kind. */
  predicate TailOf(prev: Kind, ts: seq<Token>) {
    match prev
    case Start => Regular(ts)
    case KInitial => DottedTail(ts)
    case KDigit => DottedTail(ts)
    case KLetter => SuffixTail(ts)
    case KSuffix => SuffixTail(ts) || (ts != [] && ts[0].SuffixNo? && SuffixTail(ts[1..]))
    case KSuffixNo => SuffixTail(ts)
    case KHash => RevisionTail(ts)
    case KRevision => ts == []
  }

  lemma TailStep(prev: Kind, ts: seq<Token>)
    requires ts != []
    ensures TailOf(prev, ts) <==> Follows(prev, KindOf(ts[0])) && TailOf(KindOf(ts[0]), ts[1..])
  {
    if |ts| >= 2 {
      assert ts[1..][0] == ts[1] && ts[1..][1..] == ts[2..];
    }
  }

  /** Which kind may follow which comes to the regular expression. */
  lemma {:induction false} GrammarIsRegular(prev: Kind, ts: seq<Token>)
    ensures Grammar(prev, ts) <==> AllTokensOk(ts) && TailOf(prev, ts)
    decreases |ts|
  {
    if ts != [] {
      hide TailOf, Follows, TokenOk, KindOf;
      TailStep(prev, ts);
      GrammarIsRegular(KindOf(ts[0]), ts[1..]);
    }
  }

  // ----- parsing

  /** The token at the front of `s` after a token of kind `prev`. */
  function NextToken(prev: Kind, s: string): Option<Token>
    requires s != ""
  {
    var c := s[0];
    if Dec.Has(c) then
      var d := s[..Dec.Span(s)];
      if prev == Start then Some(Initial(d)) else if prev == KSuffix then Some(SuffixNo(d)) else None
    else if c == '.' && Follows(prev, KDigit) then
      var n := Dec.Span(s[1..]);
      if n == 0 then None else Some(Digit(s[1..][..n]))
    else if 'a' <= c <= 'z' && Follows(prev, KLetter) then Some(Letter(c))
    else if c == '_' && Follows(prev, KSuffix) then
      var rank := RankOf(s[1..][..Alpha.Span(s[1..])]);
      if rank.None? then None else Some(Suffix(rank.value))
    else if c == '~' && Follows(prev, KHash) then
      var n := Hex.Span(s[1..]);
      if n == 0 then None else Some(Hash(s[1..][..n]))
    else if c == '-' && Follows(prev, KRevision) && |s| >= 2 && s[1] == 'r' then
      var n := Dec.Span(s[2..]);
      if n == 0 then None else Some(Revision(s[2..][..n]))
    else None
  }

  lemma NextTokenPrints(prev: Kind, s: string)
    requires s != "" && NextToken(prev, s).Some?
    ensures var t := NextToken(prev, s).value;
            && TokenOk(t) && Follows(prev, KindOf(t))
            && 0 < |PrintToken(t)| <= |s| && PrintToken(t) == s[..|PrintToken(t)|]
  {
    hide NameOf, RankOf, Class.Span, Class.All;
    var t := NextToken(prev, s).value;
    match t
    case Initial(d) =>
    case SuffixNo(d) =>
    case Letter(c) =>
    case Digit(d) => Behind(s, 1, |d|);
    case Hash(h) => Behind(s, 1, |h|);
    case Revision(d) => Behind(s, 2, |d|);
    case Suffix(_) =>
      var name := s[1..][..Alpha.Span(s[1..])];
      NameRank(name);
      Behind(s, 1, |name|);
  }

  lemma Behind(s: string, k: nat, n: nat)
    requires 1 <= k <= 2 && k + n <= |s|
    ensures s[..k + n] == (if k == 1 then [s[0]] else [s[0], s[1]]) + s[k..][..n]
  {
  }

  function ParseFrom(prev: Kind, s: string): Option<seq<Token>>
    decreases |s|
  {
    if s == "" then (if prev == Start then None else Some([]))
    else
      var t := NextToken(prev, s);
      if t.None? then None
      else
        NextTokenPrints(prev, s);
        var rest := ParseFrom(KindOf(t.value), s[|PrintToken(t.value)|..]);
        if rest.None? then None else Some([t.value] + rest.value)
  }

  function Parse(text: string): Option<seq<Token>> {
    ParseFrom(Start, text)
  }

  lemma Cons(prev: Kind, t: Token, rest: seq<Token>)
    ensures Print([t] + rest) == PrintToken(t) + Print(rest)
    ensures Grammar(prev, [t] + rest) <==> TokenOk(t) && Follows(prev, KindOf(t)) && Grammar(KindOf(t), rest)
  {
    hide TokenOk, Follows, PrintToken, KindOf;
    var ts := [t] + rest;
    assert ts[0] == t && ts[1..] == rest;
  }

  lemma ParseUnfold(prev: Kind, s: string) returns (t: Token, tail: string)
    requires s != "" && ParseFrom(prev, s).Some?
    ensures TokenOk(t) && Follows(prev, KindOf(t)) && s == PrintToken(t) + tail && |tail| < |s|
    ensures ParseFrom(KindOf(t), tail).Some? && ParseFrom(prev, s).value == [t] + ParseFrom(KindOf(t), tail).value
  {
    hide NextToken, TokenOk, PrintToken, Follows, KindOf;
    NextTokenPrints(prev, s);
    t := NextToken(prev, s).value;
    tail := s[|PrintToken(t)|..];
  }

  /** Printing the tokens of an accepted string gives the string back, and the tokens obey the grammar. */
  lemma {:induction false} PrintUndoesParse(prev: Kind, s: string)
    requires ParseFrom(prev, s).Some?
    ensures Grammar(prev, ParseFrom(prev, s).value) && Print(ParseFrom(prev, s).value) == s
    decreases |s|
  {
    if s != "" {
      hide ParseFrom, TokenOk, PrintToken, Follows, KindOf, Print, Grammar;
      var t, tail := ParseUnfold(prev, s);
      PrintUndoesParse(KindOf(t), tail);
      Cons(prev, t, ParseFrom(KindOf(t), tail).value);
    }
  }

  /** What the print of a token stream can begin with: nothing a preceding token could swallow. */
  lemma PrintStarts(prev: Kind, ts: seq<Token>)
    requires Grammar(prev, ts) && ts != []
    ensures Print(ts) != ""
    ensures prev != Start && prev != KSuffix ==> !Dec.Has(Print(ts)[0])
    ensures prev == KSuffix ==> !Alpha.Has(Print(ts)[0])
    ensures prev == KHash ==> !Hex.Has(Print(ts)[0])
  {
    hide NameOf;
    var t := ts[0];
    assert Print(ts)[0] == PrintToken(t)[0];
  }

  lemma {:induction false} SpanExact(cl: Class, a: string, b: string)
    requires cl.All(a) && (b == "" || !cl.Has(b[0]))
    ensures cl.Span(a + b) == |a|
  {
    if a == "" {
      assert a + b == b;
    } else {
      assert (a + b)[1..] == a[1..] + b;
      SpanExact(cl, a[1..], b);
    }
  }

  /** `b` does not begin with a character that would extend the token `t`. */
  predicate Ends(t: Token, b: string) {
    b == "" ||
    match t
    case Letter(_) => true
    case Suffix(_) => !Alpha.Has(b[0])
    case Hash(_) => !Hex.Has(b[0])
    case _ => !Dec.Has(b[0])
  }

  lemma ReadsPlain(prev: Kind, t: Token, b: string)
    requires TokenOk(t) && Follows(prev, KindOf(t)) && Ends(t, b)
    requires t.Initial? || t.SuffixNo? || t.Letter?
    ensures PrintToken(t) != "" && NextToken(prev, PrintToken(t) + b) == Some(t)
  {
    hide NameOf, RankOf, Class.Span, Class.All;
    if !t.Letter? {
      ReadsDigits(t.digits, b);
    }
  }

  lemma ReadsNumber(prev: Kind, d: string, b: string)
    requires TokenOk(Digit(d)) && Follows(prev, KDigit) && Ends(Digit(d), b)
    ensures NextToken(prev, PrintToken(Digit(d)) + b) == Some(Digit(d))
  {
    hide NameOf, RankOf, Class.Span, Class.All;
    ReadsDigits(d, b);
    assert (PrintToken(Digit(d)) + b)[1..] == d + b;
  }

  lemma ReadsRevision(prev: Kind, d: string, b: string)
    requires TokenOk(Revision(d)) && Follows(prev, KRevision) && Ends(Revision(d), b)
    ensures NextToken(prev, PrintToken(Revision(d)) + b) == Some(Revision(d))
  {
    hide NameOf, RankOf, Class.Span, Class.All;
    ReadsDigits(d, b);
    var s := PrintToken(Revision(d)) + b;
    assert s == "-r" + (d + b);
    assert s[2..] == d + b;
  }

  lemma ReadsMarked(prev: Kind, t: Token, b: string)
    requires TokenOk(t) && Follows(prev, KindOf(t)) && Ends(t, b)
    requires t.Hash? || t.Suffix?
    ensures NextToken(prev, PrintToken(t) + b) == Some(t)
  {
    hide NameOf, RankOf, Class.Span, Class.All;
    var s := PrintToken(t) + b;
    if t.Hash? {
      assert s[1..] == t.hex + b;
      SpanExact(Hex, t.hex, b);
    } else {
      assert s[1..] == NameOf(t.rank) + b;
      RankName(t.rank);
      SpanExact(Alpha, NameOf(t.rank), b);
    }
  }

  /** The first token of a printed stream is read back. */
  lemma NextTokenReads(prev: Kind, ts: seq<Token>)
    requires Grammar(prev, ts) && ts != []
    ensures Print(ts) != "" && NextToken(prev, Print(ts)) == Some(ts[0])
  {
    hide NameOf, RankOf, Class.Span, Print, Class.All, NextToken, TokenOk, PrintToken;
    var (t, b) := (ts[0], Print(ts[1..]));
    PrintUnfold(ts);
    PrintStarts(prev, ts);
    if ts[1..] != [] {
      PrintStarts(KindOf(t), ts[1..]);
    } else {
      PrintUnfold(ts[1..]);
    }
    if t.Digit? {
      ReadsNumber(prev, t.digits, b);
    } else if t.Revision? {
      ReadsRevision(prev, t.digits, b);
    } else if t.Hash? || t.Suffix? {
      ReadsMarked(prev, t, b);
    } else {
      ReadsPlain(prev, t, b);
    }
  }

  lemma PrintUnfold(ts: seq<Token>)
    ensures ts == [] ==> Print(ts) == ""
    ensures ts != [] ==> Print(ts) == PrintToken(ts[0]) + Print(ts[1..])
    ensures Print([]) == ""
  {
  }

  lemma ReadsDigits(d: string, b: string)
    requires d != "" && Dec.All(d) && (b == "" || !Dec.Has(b[0]))
    ensures Dec.Has((d + b)[0]) && Dec.Span(d + b) == |d| && (d + b)[..|d|] == d
  {
    SpanExact(Dec, d, b);
  }

  /** Every token stream of the grammar prints to a string that parses to that stream. */
  lemma {:induction false} ParseUndoesPrint(prev: Kind, ts: seq<Token>)
    requires Grammar(prev, ts)
    ensures ParseFrom(prev, Print(ts)) == Some(ts)
    decreases |ts|
  {
    if ts != [] {
      hide NextToken, TokenOk, PrintToken, Follows;
      NextTokenReads(prev, ts);
      NextTokenPrints(prev, Print(ts));
      assert Print(ts)[|PrintToken(ts[0])|..] == Print(ts[1..]);
      ParseUndoesPrint(KindOf(ts[0]), ts[1..]);
      assert [ts[0]] + ts[1..] == ts;
    }
  }

  /** A string is accepted exactly when it is the print of a stream of the grammar, and no two
      accepted strings share a stream. */
  lemma ParseExact(text: string)
    ensures Parse(text).Some? <==> exists ts :: Grammar(Start, ts) && Print(ts) == text
    ensures forall other :: Parse(text).Some? && Parse(other) == Parse(text) ==> other == text
  {
    if Parse(text).Some? {
      PrintUndoesParse(Start, text);
    }
    forall ts | Grammar(Start, ts) && Print(ts) == text ensures Parse(text).Some? {
      ParseUndoesPrint(Start, ts);
    }
    forall other | Parse(text).Some? && Parse(other) == Parse(text) ensures other == text {
      PrintUndoesParse(Start, other);
    }
  }

  // ----- the tokenizer

  /** What is left to parse gives, behind the tokens found so far, what the whole text gives. */
  ghost predicate Resumes(text: string, i: nat, ts: seq<Token>, prev: Kind) {
    && i <= |text|
    && Parse(text) == var rest := ParseFrom(prev, text[i..]);
                      if rest.None? then None else Some(ts + rest.value)
  }

  /** Taking the next token, and refusing when there is none. */
  lemma ResumeStep(text: string, i: nat, ts: seq<Token>, prev: Kind)
    requires Resumes(text, i, ts, prev) && i < |text|
    ensures var t := NextToken(prev, text[i..]);
            && (t.None? ==> Parse(text) == None)
            && (t.Some? ==>
                  var n := |PrintToken(t.value)|;
                  i + n <= |text| && Resumes(text, i + n, ts + [t.value], KindOf(t.value)))
  {
    hide NextToken, PrintToken, KindOf;
    var s := text[i..];
    var t := NextToken(prev, s);
    if t.Some? {
      NextTokenPrints(prev, s);
      var n := |PrintToken(t.value)|;
      assert text[i + n..] == s[n..];
      var rest := ParseFrom(KindOf(t.value), s[n..]);
      if rest.Some? {
        assert ts + ([t.value] + rest.value) == (ts + [t.value]) + rest.value;
      }
    }
  }

  lemma ResumeEnd(text: string, ts: seq<Token>, prev: Kind)
    requires Resumes(text, |text|, ts, prev)
    ensures Parse(text) == if prev == Start then None else Some(ts)
  {
    assert text[|text|..] == "";
    assert ts + [] == ts;
  }

  lemma ParseBegins(text: string)
    ensures Resumes(text, 0, [], Start) && (text == "" ==> Parse(text) == None)
  {
    hide NextToken;
    assert text[0..] == text;
    assert Parse(text).Some? ==> [] + Parse(text).value == Parse(text).value;
  }

  // What the next token is, by its first character.

  lemma NextDot(prev: Kind, s: string)
    requires s != "" && s[0] == '.' && Follows(prev, KDigit)
    ensures var n := Dec.Span(s[1..]);
            NextToken(prev, s) == if n == 0 then None else Some(Digit(s[1..][..n]))
  {
    hide RankOf, Class.Span, Class.All;
  }

  lemma NextDigits(prev: Kind, s: string)
    requires s != "" && (prev == Start || (prev == KSuffix && Dec.Has(s[0])))
    ensures var n := Dec.Span(s);
            && (n == 0 <==> !Dec.Has(s[0]))
            && NextToken(prev, s)
               == (if n == 0 then None else Some(if prev == Start then Initial(s[..n]) else SuffixNo(s[..n])))
  {
    hide RankOf, Class.All;
  }

  lemma NextHash(prev: Kind, s: string)
    requires s != "" && s[0] == '~' && Follows(prev, KHash)
    ensures var n := Hex.Span(s[1..]);
            NextToken(prev, s) == if n == 0 then None else Some(Hash(s[1..][..n]))
  {
    hide RankOf, Class.Span, Class.All;
  }

  lemma NextRevision(prev: Kind, s: string)
    requires s != "" && s[0] == '-' && Follows(prev, KRevision)
    ensures |s| < 2 || s[1] != 'r' ==> NextToken(prev, s) == None
    ensures |s| >= 2 && s[1] == 'r' ==>
              var n := Dec.Span(s[2..]);
              NextToken(prev, s) == if n == 0 then None else Some(Revision(s[2..][..n]))
  {
    hide RankOf, Class.Span, Class.All;
  }

  // Each phase of the tokenizer at position `i`: it takes its token, up to `j`, or refuses the text.

  lemma Slices(text: string, i: nat, k: nat, j: nat)
    requires i + k <= j <= |text|
    ensures text[i..][k..] == text[i + k..] && text[i + k..][..j - i - k] == text[i + k..j]
  {
  }

  lemma TakeDigits(text: string, i: nat, ts: seq<Token>, prev: Kind, j: nat)
    requires Resumes(text, i, ts, prev) && i < |text| && j == i + Dec.Span(text[i..])
    ensures prev == Start ==>
              if j == i then Parse(text) == None else Resumes(text, j, ts + [Initial(text[i..j])], KInitial)
    ensures prev == KSuffix && j > i ==> Resumes(text, j, ts + [SuffixNo(text[i..j])], KSuffixNo)
  {
    hide RankOf, NextToken, Parse, Resumes, Class.Span, Class.All;
    SpanZero(Dec, text, i);
    assert text[i..][..j - i] == text[i..j];
    if prev == Start || (prev == KSuffix && j > i) {
      NextDigits(prev, text[i..]);
      ResumeStep(text, i, ts, prev);
    }
  }

  lemma TakeDot(text: string, i: nat, ts: seq<Token>, prev: Kind, j: nat)
    requires Resumes(text, i, ts, prev) && i < |text| && text[i] == '.' && (prev == KInitial || prev == KDigit)
    requires j == i + 1 + Dec.Span(text[i + 1..])
    ensures if j == i + 1 then Parse(text) == None else Resumes(text, j, ts + [Digit(text[i + 1..j])], KDigit)
  {
    hide RankOf, NextToken, Parse, Resumes, Class.Span, Class.All;
    NextDot(prev, text[i..]);
    ResumeStep(text, i, ts, prev);
    Slices(text, i, 1, j);
  }

  lemma TakeLetter(text: string, i: nat, ts: seq<Token>, prev: Kind)
    requires Resumes(text, i, ts, prev) && i < |text| && 'a' <= text[i] <= 'z' && (prev == KInitial || prev == KDigit)
    ensures Resumes(text, i + 1, ts + [Letter(text[i])], KLetter)
  {
    hide RankOf, Parse, Resumes, Class.Span, Class.All;
    ResumeStep(text, i, ts, prev);
  }

  lemma TakeSuffix(text: string, i: nat, ts: seq<Token>, prev: Kind, j: nat)
    requires Resumes(text, i, ts, prev) && i < |text| && text[i] == '_' && Follows(prev, KSuffix)
    requires j == i + 1 + Alpha.Span(text[i + 1..])
    ensures var rank := RankOf(text[i + 1..j]);
            if rank.None? then Parse(text) == None else Resumes(text, j, ts + [Suffix(rank.value)], KSuffix)
  {
    hide RankOf, NameOf, Parse, Resumes, Class.Span, Class.All;
    ResumeStep(text, i, ts, prev);
    Slices(text, i, 1, j);
    if RankOf(text[i + 1..j]).Some? {
      NameRank(text[i + 1..j]);
    }
  }

  lemma TakeHash(text: string, i: nat, ts: seq<Token>, prev: Kind, j: nat)
    requires Resumes(text, i, ts, prev) && i < |text| && text[i] == '~' && Follows(prev, KHash)
    requires j == i + 1 + Hex.Span(text[i + 1..])
    ensures if j == i + 1 then Parse(text) == None else Resumes(text, j, ts + [Hash(text[i + 1..j])], KHash)
  {
    hide RankOf, NextToken, Parse, Resumes, Class.Span, Class.All;
    NextHash(prev, text[i..]);
    ResumeStep(text, i, ts, prev);
    Slices(text, i, 1, j);
  }

  lemma TakeRevision(text: string, i: nat, ts: seq<Token>, prev: Kind, j: nat)
    requires Resumes(text, i, ts, prev) && i < |text| && text[i] == '-' && Follows(prev, KRevision)
    requires i + 2 <= |text| && text[i + 1] == 'r' ==> j == i + 2 + Dec.Span(text[i + 2..])
    ensures if i + 2 > |text| || text[i + 1] != 'r' || j == i + 2 then Parse(text) == None
            else Resumes(text, j, ts + [Revision(text[i + 2..j])], KRevision)
  {
    hide RankOf, NextToken, Parse, Resumes, Class.Span, Class.All;
    NextRevision(prev, text[i..]);
    ResumeStep(text, i, ts, prev);
    if i + 2 <= |text| && text[i + 1] == 'r' {
      Slices(text, i, 2, j);
    }
  }

  /** None of the phases applies at `i`, so the text is refused. */
  lemma TakeNothing(text: string, i: nat, ts: seq<Token>, prev: Kind)
    requires Resumes(text, i, ts, prev) && i < |text| && prev != Start
    requires prev == KInitial || prev == KDigit ==> text[i] != '.' && !('a' <= text[i] <= 'z')
    requires prev == KSuffix ==> !Dec.Has(text[i])
    requires prev != KHash && prev != KRevision ==> text[i] != '_' && text[i] != '~'
    requires prev != KRevision ==> text[i] != '-'
    ensures Parse(text) == None
  {
    hide RankOf, Parse, Resumes, Class.Span, Class.All;
    ResumeStep(text, i, ts, prev);
    assert text[i..][0] == text[i];
  }

  lemma SpanZero(cl: Class, text: string, i: nat)
    requires i <= |text|
    ensures i < |text| ==> (cl.Span(text[i..]) == 0 <==> !cl.Has(text[i]))
    ensures i + cl.Span(text[i..]) <= |text|
  {
  }

  method SpanEnd(text: string, start: nat, cl: Class) returns (j: nat)
    requires start <= |text|
    ensures j == start + cl.Span(text[start..])
  {
    j := start;
    while j < |text| && cl.Has(text[j])
      invariant start <= j <= |text|
      invariant j + cl.Span(text[j..]) == start + cl.Span(text[start..])
    {
      assert text[j..][1..] == text[j + 1..];
      j := j + 1;
    }
  }

  /** The numbers at the front of the text, and the one letter that may end them. */
  method ParseNumbers(text: string) returns (ok: bool, i: nat, tokens: seq<Token>, ghost prev: Kind)
    ensures !ok ==> Parse(text) == None
    ensures ok ==> i <= |text| && Resumes(text, i, tokens, prev)
    ensures ok ==> prev == KInitial || prev == KDigit || prev == KLetter
    ensures ok && i < |text| && prev != KLetter ==> text[i] != '.' && !('a' <= text[i] <= 'z')
  {
    hide Parse, RankOf, Class.Span, Resumes, Class.All;
    i, tokens, prev := 0, [], Start;
    ParseBegins(text);
    if text == "" {
      return false, i, tokens, prev;
    }
    var j: nat := SpanEnd(text, 0, Dec);
    TakeDigits(text, 0, tokens, Start, j);
    if j == 0 {
      return false, i, tokens, prev;
    }
    i, tokens, prev := j, tokens + [Initial(text[0..j])], KInitial;
    while i < |text| && text[i] == '.'
      invariant i <= |text| && Resumes(text, i, tokens, prev) && (prev == KInitial || prev == KDigit)
    {
      j := SpanEnd(text, i + 1, Dec);
      TakeDot(text, i, tokens, prev, j);
      if j == i + 1 {
        return false, i, tokens, prev;
      }
      i, tokens, prev := j, tokens + [Digit(text[i + 1..j])], KDigit;
    }
    if i < |text| && 'a' <= text[i] <= 'z' {
      TakeLetter(text, i, tokens, prev);
      i, tokens, prev := i + 1, tokens + [Letter(text[i])], KLetter;
    }
    return true, i, tokens, prev;
  }

  /** After the numbers: no character is left that the numbers would take. */
  ghost predicate PastNumbers(text: string, i: nat, prev: Kind) {
    && prev != Start
    && (i < |text| && (prev == KInitial || prev == KDigit) ==> text[i] != '.' && !('a' <= text[i] <= 'z'))
    && (i < |text| && prev == KSuffix ==> !Dec.Has(text[i]))
  }

  /** The suffixes after the numbers, each with the number that may follow it. */
  method ParseSuffixes(text: string, start: nat, numbers: seq<Token>, ghost before: Kind)
    returns (ok: bool, i: nat, tokens: seq<Token>, ghost prev: Kind)
    requires start <= |text| && Resumes(text, start, numbers, before) && PastNumbers(text, start, before)
    requires before != KHash && before != KRevision
    ensures !ok ==> Parse(text) == None
    ensures ok ==> i <= |text| && Resumes(text, i, tokens, prev) && PastNumbers(text, i, prev)
    ensures ok ==> prev != KHash && prev != KRevision && (i < |text| ==> text[i] != '_')
  {
    hide Parse, RankOf, Class.Span, Resumes, Class.All;
    i, tokens, prev := start, numbers, before;
    while i < |text| && text[i] == '_'
      invariant i <= |text| && Resumes(text, i, tokens, prev) && PastNumbers(text, i, prev)
      invariant prev != KHash && prev != KRevision
    {
      var j: nat := SpanEnd(text, i + 1, Alpha);
      TakeSuffix(text, i, tokens, prev, j);
      SpanZero(Alpha, text, i + 1);
      var rank := RankOf(text[i + 1..j]);
      if rank.None? {
        return false, i, tokens, prev;
      }
      i, tokens, prev := j, tokens + [Suffix(rank.value)], KSuffix;
      j := SpanEnd(text, i, Dec);
      SpanZero(Dec, text, i);
      if j > i {
        TakeDigits(text, i, tokens, prev, j);
        i, tokens, prev := j, tokens + [SuffixNo(text[i..j])], KSuffixNo;
      }
    }
    return true, i, tokens, prev;
  }

  /** The revision, if there is one, and then the end. */
  method ParseEnd(text: string, start: nat, before: seq<Token>, ghost kind: Kind) returns (r: Option<seq<Token>>)
    requires start <= |text| && Resumes(text, start, before, kind) && PastNumbers(text, start, kind)
    requires kind != KRevision
    requires start < |text| && kind != KHash ==> text[start] != '_' && text[start] != '~'
    ensures r == Parse(text)
  {
    hide Parse, RankOf, Class.Span, Resumes, Class.All;
    var n := |text|;
    var i, tokens := start, before;
    ghost var prev := kind;
    var j: nat := i;
    if i < n && text[i] == '-' {
      if i + 1 < n && text[i + 1] == 'r' {
        j := SpanEnd(text, i + 2, Dec);
        SpanZero(Dec, text, i + 2);
      }
      TakeRevision(text, i, tokens, prev, j);
      if i + 1 >= n || text[i + 1] != 'r' || j == i + 2 {
        return None;
      }
      i, tokens, prev := j, tokens + [Revision(text[i + 2..j])], KRevision;
    }
    if i != n {
      TakeNothing(text, i, tokens, prev);
      return None;
    }
    ResumeEnd(text, tokens, prev);
    return Some(tokens);
  }

  /** `_parse`. */
  method ParseVersion(text: string) returns (r: Option<seq<Token>>)
    ensures r == Parse(text)
  {
    hide Parse, RankOf, Class.Span, Resumes, Class.All;
    var ok, i, tokens, prev := ParseNumbers(text);
    if !ok {
      return None;
    }
    ok, i, tokens, prev := ParseSuffixes(text, i, tokens, prev);
    if !ok {
      return None;
    }
    if i < |text| && text[i] == '~' {
      var j: nat := SpanEnd(text, i + 1, Hex);
      TakeHash(text, i, tokens, prev, j);
      SpanZero(Hex, text, i + 1);
      if j == i + 1 {
        return None;
      }
      i, tokens, prev := j, tokens + [Hash(text[i + 1..j])], KHash;
    }
    r := ParseEnd(text, i, tokens, prev);
  }
}
