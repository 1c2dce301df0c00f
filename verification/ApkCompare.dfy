/**
 The comparison walk over two token streams. It is proved equal to the lexicographic order on token
 keys, from which follows that versions are totally preordered.
 */
module ApkCompare {
  import opened Outcomes
  import opened ApkVersion

  const UINT64 := 0x1_0000_0000_0000_0000

  // ----- lexicographic orders

  function Sign(a: int, b: int): int {
    if a < b then -1 else if a > b then 1 else 0
  }

  /** Lexicographic order; a proper prefix comes first. */
  function Lex(a: seq<int>, b: seq<int>): (r: int)
    ensures -1 <= r <= 1
  {
    if a == [] then (if b == [] then 0 else -1)
    else if b == [] then 1
    else if a[0] != b[0] then Sign(a[0], b[0])
    else Lex(a[1..], b[1..])
  }

  function LexKeys(a: seq<seq<int>>, b: seq<seq<int>>): (r: int)
    ensures -1 <= r <= 1
  {
    if a == [] then (if b == [] then 0 else -1)
    else if b == [] then 1
    else if Lex(a[0], b[0]) != 0 then Lex(a[0], b[0])
    else LexKeys(a[1..], b[1..])
  }

  lemma {:induction false} LexLaws(a: seq<int>, b: seq<int>)
    ensures Lex(a, b) == -Lex(b, a)
    ensures Lex(a, b) == 0 <==> a == b
  {
    if a != [] && b != [] && a[0] == b[0] {
      LexLaws(a[1..], b[1..]);
      assert a == [a[0]] + a[1..] && b == [b[0]] + b[1..];
    }
  }

  lemma {:induction false} LexTransitive(a: seq<int>, b: seq<int>, c: seq<int>)
    requires Lex(a, b) <= 0 && Lex(b, c) <= 0
    ensures Lex(a, c) <= 0
    ensures Lex(a, b) < 0 || Lex(b, c) < 0 ==> Lex(a, c) < 0
  {
    if a != [] && b != [] && c != [] && a[0] == b[0] == c[0] {
      LexTransitive(a[1..], b[1..], c[1..]);
    }
  }

  lemma {:induction false} LexKeysLaws(a: seq<seq<int>>, b: seq<seq<int>>)
    ensures LexKeys(a, b) == -LexKeys(b, a)
    ensures LexKeys(a, b) == 0 <==> a == b
  {
    if a != [] && b != [] {
      LexLaws(a[0], b[0]);
      LexKeysLaws(a[1..], b[1..]);
      assert a == [a[0]] + a[1..] && b == [b[0]] + b[1..];
    }
  }

  lemma {:induction false} LexKeysTransitive(a: seq<seq<int>>, b: seq<seq<int>>, c: seq<seq<int>>)
    requires LexKeys(a, b) <= 0 && LexKeys(b, c) <= 0
    ensures LexKeys(a, c) <= 0
    ensures LexKeys(a, b) < 0 || LexKeys(b, c) < 0 ==> LexKeys(a, c) < 0
  {
    if a != [] && b != [] && c != [] {
      hide Lex;
      LexLaws(a[0], b[0]);
      LexLaws(b[0], c[0]);
      LexLaws(a[0], c[0]);
      LexTransitive(a[0], b[0], c[0]);
      if a[0] == b[0] == c[0] {
        LexKeysTransitive(a[1..], b[1..], c[1..]);
      }
    }
  }

  // ----- comparing two tokens

  function Number(digits: string): nat {
    if digits == "" then 0
    else 10 * Number(digits[..|digits| - 1]) + (digits[|digits| - 1] as int - '0' as int) % 10
  }

  function Codes(s: string): (r: seq<int>)
    ensures |r| == |s|
  {
    seq(|s|, i requires 0 <= i < |s| => s[i] as int)
  }

  /** `_digit_cmp`: by value modulo 2^64, or byte by byte when the token kind looks at leading
      zeros and one side has one. */
  function DigitCmp(a: string, b: string, zeroSensitive: bool): int {
    if zeroSensitive && (a[..Min(1, |a|)] == "0" || b[..Min(1, |b|)] == "0") then Lex(Codes(a), Codes(b))
    else Sign(Number(a) % UINT64, Number(b) % UINT64)
  }

  function Min(a: nat, b: nat): nat {
    if a < b then a else b
  }

  /** `_token_cmp`, for tokens of one kind. */
  function TokenCmp(a: Token, b: Token): int
    requires KindOf(a) == KindOf(b)
  {
    match a
    case Initial(d) => DigitCmp(d, b.digits, false)
    case SuffixNo(d) => DigitCmp(d, b.digits, false)
    case Revision(d) => DigitCmp(d, b.digits, false)
    case Digit(d) => DigitCmp(d, b.digits, true)
    case Letter(c) => Sign(c as int, b.letter as int)
    case Suffix(rank) => Sign(rank, b.rank)
    case Hash(h) => Lex(Codes(h), Codes(b.hex))
  }

  /** Position of a kind in the source's token enumeration; the end of the stream is 7. */
  function KindNo(k: Kind): int {
    match k
    case Start => -1
    case KInitial => 0
    case KDigit => 1
    case KLetter => 2
    case KSuffix => 3
    case KSuffixNo => 4
    case KHash => 5
    case KRevision => 6
  }

  const END_NO := 7

  // ----- keys

  const END_KEY := [1]

  /** The key of a token: pre-suffix < end < revision < hash < suffix number < post-suffix
      < letter < dotted number < initial number; within a kind, by value, with the dotted numbers
      that have a leading zero below all others. */
  function Key(t: Token): (k: seq<int>)
    ensures k != []
  {
    match t
    case Suffix(rank) => if rank < RANK_NONE then [0, rank] else [5, rank]
    case Revision(d) => [2, Number(d) % UINT64]
    case Hash(h) => [3] + Codes(h)
    case SuffixNo(d) => [4, Number(d) % UINT64]
    case Letter(c) => [6, c as int]
    case Digit(d) => if d != "" && d[0] == '0' then [7, 0] + Codes(d) else [7, 1, Number(d) % UINT64]
    case Initial(d) => [8, Number(d) % UINT64]
  }

  function Keys(ts: seq<Token>): (ks: seq<seq<int>>)
    ensures ks != []
  {
    if ts == [] then [END_KEY] else [Key(ts[0])] + Keys(ts[1..])
  }

  lemma LexCons(x: int, a: seq<int>, b: seq<int>)
    ensures Lex([x] + a, [x] + b) == Lex(a, b)
  {
    assert ([x] + a)[1..] == a && ([x] + b)[1..] == b;
  }

  lemma LexOne(x: int, y: int)
    ensures Lex([x], [y]) == Sign(x, y)
  {
    assert [x][1..] == [] && [y][1..] == [];
  }

  lemma LexPair(x: int, a: int, b: int)
    ensures Lex([x, a], [x, b]) == Sign(a, b)
  {
    LexCons(x, [a], [b]);
    LexOne(a, b);
    assert [x, a] == [x] + [a] && [x, b] == [x] + [b];
  }

  lemma DottedKey(a: string, b: string)
    requires TokenOk(Digit(a)) && TokenOk(Digit(b))
    ensures DigitCmp(a, b, true) == Lex(Key(Digit(a)), Key(Digit(b)))
  {
    hide Number;
    var (ka, kb) := (Key(Digit(a)), Key(Digit(b)));
    assert a[..1] == "0" <==> a[0] == '0';
    assert b[..1] == "0" <==> b[0] == '0';
    if a[0] == '0' && b[0] == '0' {
      assert ka == [7] + ([0] + Codes(a)) && kb == [7] + ([0] + Codes(b));
      LexCons(7, [0] + Codes(a), [0] + Codes(b));
      LexCons(0, Codes(a), Codes(b));
    } else if a[0] != '0' && b[0] != '0' {
      assert ka == [7] + [1, Number(a) % UINT64] && kb == [7] + [1, Number(b) % UINT64];
      LexCons(7, [1, Number(a) % UINT64], [1, Number(b) % UINT64]);
      LexPair(1, Number(a) % UINT64, Number(b) % UINT64);
    } else {
      assert ka[1..] != [] && kb[1..] != [] && ka[1..][0] == ka[1] && kb[1..][0] == kb[1];
      assert Codes(a)[0] == a[0] as int && Codes(b)[0] == b[0] as int;
    }
  }

  /** Comparing two tokens of one kind is comparing their keys. */
  lemma TokenCmpIsKeys(a: Token, b: Token)
    requires TokenOk(a) && TokenOk(b) && KindOf(a) == KindOf(b)
    ensures TokenCmp(a, b) == Lex(Key(a), Key(b))
  {
    hide Number;
    match a
    case Digit(d) => DottedKey(d, b.digits);
    case Hash(h) => LexCons(3, Codes(h), Codes(b.hex));
    case Letter(c) => LexPair(6, c as int, b.letter as int);
    case Suffix(rank) => LexPair(0, rank, b.rank); LexPair(5, rank, b.rank);
    case Initial(d) => LexPair(8, Number(d) % UINT64, Number(b.digits) % UINT64);
    case SuffixNo(d) => LexPair(4, Number(d) % UINT64, Number(b.digits) % UINT64);
    case Revision(d) => LexPair(2, Number(d) % UINT64, Number(b.digits) % UINT64);
  }

  predicate AllOk(ts: seq<Token>) {
    forall t :: t in ts ==> TokenOk(t)
  }

  predicate IsPre(ts: seq<Token>, i: nat) {
    i < |ts| && ts[i].Suffix? && ts[i].rank < RANK_NONE
  }

  function KindNoAt(ts: seq<Token>, i: nat): int {
    if i < |ts| then KindNo(KindOf(ts[i])) else END_NO
  }

  lemma KeysFrom(ts: seq<Token>, i: nat)
    requires i <= |ts|
    ensures Keys(ts[i..]) == if i < |ts| then [Key(ts[i])] + Keys(ts[i + 1..]) else [END_KEY]
  {
    if i < |ts| {
      assert ts[i..][0] == ts[i] && ts[i..][1..] == ts[i + 1..];
    }
  }

  /** The rank that leads a key is read off the kind, but for the pre-suffixes. */
  lemma HeadRank(ts: seq<Token>, i: nat)
    requires i <= |ts|
    ensures Keys(ts[i..])[0] != [] && Keys(ts[i..])[0][0] == if IsPre(ts, i) then 0 else 8 - KindNoAt(ts, i)
  {
    hide Number;
    KeysFrom(ts, i);
  }

  /** The comparison walk computes the lexicographic order of the keys. */
  method CompareTokens(sa: seq<Token>, sb: seq<Token>) returns (r: int)
    requires AllOk(sa) && AllOk(sb)
    ensures r == LexKeys(Keys(sa), Keys(sb))
  {
    hide Key, Keys, Lex, TokenOk, TokenCmp;
    var i := 0;
    assert sa[0..] == sa && sb[0..] == sb;
    while i < |sa| && i < |sb| && KindOf(sa[i]) == KindOf(sb[i])
      invariant i <= |sa| && i <= |sb|
      invariant LexKeys(Keys(sa[i..]), Keys(sb[i..])) == LexKeys(Keys(sa), Keys(sb))
    {
      WalkStep(sa, sb, i);
      var r := TokenCmp(sa[i], sb[i]);
      if r != 0 {
        return r;
      }
      i := i + 1;
    }
    WalkEnd(sa, sb, i);
    if i == |sa| && i == |sb| {
      return 0;
    }
    if IsPre(sa, i) {
      return -1;
    }
    if IsPre(sb, i) {
      return 1;
    }
    return if KindNoAt(sa, i) > KindNoAt(sb, i) then -1 else 1;
  }

  lemma WalkStep(sa: seq<Token>, sb: seq<Token>, i: nat)
    requires AllOk(sa) && AllOk(sb) && i < |sa| && i < |sb| && KindOf(sa[i]) == KindOf(sb[i])
    ensures LexKeys(Keys(sa[i..]), Keys(sb[i..]))
         == var r := TokenCmp(sa[i], sb[i]);
            if r != 0 then r else LexKeys(Keys(sa[i + 1..]), Keys(sb[i + 1..]))
  {
    hide Key, Keys, Lex, TokenOk, TokenCmp, KindOf;
    KeysFrom(sa, i);
    KeysFrom(sb, i);
    TokenCmpIsKeys(sa[i], sb[i]);
    assert ([Key(sa[i])] + Keys(sa[i + 1..]))[1..] == Keys(sa[i + 1..]);
    assert ([Key(sb[i])] + Keys(sb[i + 1..]))[1..] == Keys(sb[i + 1..]);
  }

  /** Where the kinds part (or a stream ends) the leading ranks decide. */
  lemma WalkEnd(sa: seq<Token>, sb: seq<Token>, i: nat)
    requires i <= |sa| && i <= |sb|
    requires !(i < |sa| && i < |sb| && KindOf(sa[i]) == KindOf(sb[i]))
    ensures LexKeys(Keys(sa[i..]), Keys(sb[i..]))
         == if i == |sa| && i == |sb| then 0
            else if IsPre(sa, i) then -1
            else if IsPre(sb, i) then 1
            else if KindNoAt(sa, i) > KindNoAt(sb, i) then -1 else 1
  {
    if i == |sa| && i == |sb| {
      LexKeysLaws([END_KEY], [END_KEY]);
    } else {
      hide Key, Keys, Lex, LexKeys;
      HeadRank(sa, i);
      HeadRank(sb, i);
      KindNosDiffer(sa, sb, i);
      HeadsDecide(Keys(sa[i..]), Keys(sb[i..]));
    }
  }

  lemma KindNosDiffer(sa: seq<Token>, sb: seq<Token>, i: nat)
    requires i <= |sa| && i <= |sb| && !(i == |sa| && i == |sb|)
    requires !(i < |sa| && i < |sb| && KindOf(sa[i]) == KindOf(sb[i]))
    ensures KindNoAt(sa, i) != KindNoAt(sb, i)
    ensures 0 <= KindNoAt(sa, i) <= 7 && 0 <= KindNoAt(sb, i) <= 7
    ensures IsPre(sa, i) ==> !IsPre(sb, i) && KindNoAt(sa, i) == 3
    ensures IsPre(sb, i) ==> KindNoAt(sb, i) == 3
  {
  }

  lemma HeadsDecide(a: seq<seq<int>>, b: seq<seq<int>>)
    requires a != [] && b != [] && a[0] != [] && b[0] != [] && a[0][0] != b[0][0]
    ensures LexKeys(a, b) == Sign(a[0][0], b[0][0])
  {
  }

  // ----- versions

  predicate IsVersion(v: string) {
    Parse(v).Some?
  }

  /** The order on version strings. */
  function Order(a: string, b: string): int
    requires IsVersion(a) && IsVersion(b)
  {
    LexKeys(Keys(Parse(a).value), Keys(Parse(b).value))
  }

  lemma {:induction false} GrammarAllOk(prev: Kind, ts: seq<Token>)
    requires Grammar(prev, ts)
    ensures AllOk(ts)
    decreases |ts|
  {
    if ts != [] {
      hide TokenOk, Follows;
      GrammarAllOk(KindOf(ts[0]), ts[1..]);
      assert forall t :: t in ts ==> t == ts[0] || t in ts[1..];
    }
  }

  /** `compare`: nothing when one of the strings is not a version, and otherwise their order. */
  method Compare(v1: string, v2: string) returns (r: Option<int>)
    ensures r.Some? <==> IsVersion(v1) && IsVersion(v2)
    ensures r.Some? ==> r.value == Order(v1, v2)
  {
    var sa := ParseVersion(v1);
    if sa.None? {
      return None;
    }
    var sb := ParseVersion(v2);
    if sb.None? {
      return None;
    }
    PrintUndoesParse(Start, v1);
    PrintUndoesParse(Start, v2);
    GrammarAllOk(Start, sa.value);
    GrammarAllOk(Start, sb.value);
    var c := CompareTokens(sa.value, sb.value);
    return Some(c);
  }

  /** Versions are totally preordered: the sign flips with the arguments, and it is transitive,
      strictly so when one of the steps is strict. */
  lemma OrderIsTotalPreorder(a: string, b: string, c: string)
    requires IsVersion(a) && IsVersion(b) && IsVersion(c)
    ensures Order(a, a) == 0 && Order(a, b) == -Order(b, a)
    ensures Order(a, b) <= 0 && Order(b, c) <= 0 ==> Order(a, c) <= 0
    ensures Order(a, b) <= 0 && Order(b, c) <= 0 && (Order(a, b) < 0 || Order(b, c) < 0) ==> Order(a, c) < 0
    ensures Order(a, b) == 0 <==> Keys(Parse(a).value) == Keys(Parse(b).value)
  {
    hide Keys, LexKeys, Parse;
    var (ka, kb, kc) := (Keys(Parse(a).value), Keys(Parse(b).value), Keys(Parse(c).value));
    LexKeysLaws(ka, ka);
    LexKeysLaws(ka, kb);
    if LexKeys(ka, kb) <= 0 && LexKeys(kb, kc) <= 0 {
      LexKeysTransitive(ka, kb, kc);
    }
  }

  lemma {:induction false} KeysPrefix(p: seq<Token>, more: seq<Token>)
    requires more != []
    ensures LexKeys(Keys(p), Keys(p + more)) == if IsPre(more, 0) then 1 else -1
  {
    if p == [] {
      assert p + more == more;
      HeadRank(more, 0);
      assert more[0..] == more;
      assert Keys(p) == [END_KEY];
      assert Keys(more)[0][0] != 1;
    } else {
      hide Key, Lex;
      assert (p + more)[0] == p[0] && (p + more)[1..] == p[1..] + more;
      LexLaws(Key(p[0]), Key(p[0]));
      KeysPrefix(p[1..], more);
      assert ([Key(p[0])] + Keys(p[1..]))[1..] == Keys(p[1..]);
      assert ([Key(p[0])] + Keys(p[1..] + more))[1..] == Keys(p[1..] + more);
    }
  }

  /** A version whose tokens continue those of another is newer, unless it continues with a
      pre-release suffix; then it is older. */
  lemma LongerIsNewer(a: string, b: string)
    requires IsVersion(a) && IsVersion(b) && Parse(a).value < Parse(b).value
    ensures var next := Parse(b).value[|Parse(a).value|];
            Order(a, b) == if next.Suffix? && next.rank < RANK_NONE then 1 else -1
  {
    hide Parse, Keys, LexKeys;
    var (p, q) := (Parse(a).value, Parse(b).value);
    KeysPrefix(p, q[|p|..]);
    assert q == p + q[|p|..];
  }

  // ----- what the digits mean

  /** The decimal spelling of a number. */
  function Spelling(n: nat): (s: string)
    ensures s != ""
    decreases n
  {
    if n < 10 then ["0123456789"[n]] else Spelling(n / 10) + ["0123456789"[n % 10]]
  }

  lemma DigitValue(d: nat)
    requires d < 10
    ensures var c := "0123456789"[d]; Dec.Has(c) && c as int - '0' as int == d && (d > 0 ==> c != '0')
  {
  }

  lemma OneMoreDigit(s: string, d: nat)
    requires d < 10 && Dec.All(s)
    ensures var t := s + ["0123456789"[d]]; Number(t) == 10 * Number(s) + d && Dec.All(t) && (s != "" ==> t[0] == s[0])
  {
    DigitValue(d);
    var t := s + ["0123456789"[d]];
    assert t[..|t| - 1] == s;
  }

  /** A spelled number reads as itself; it has no leading zero, unless it is zero. */
  lemma {:induction false} NumberOfSpelling(n: nat)
    ensures Number(Spelling(n)) == n && Dec.All(Spelling(n)) && (n > 0 ==> Spelling(n)[0] != '0')
    decreases n
  {
    hide Number, Class.All;
    NothingSpelled();
    if n < 10 {
      DigitValue(n);
      OneMoreDigit("", n);
      assert "" + ["0123456789"[n]] == ["0123456789"[n]];
    } else {
      NumberOfSpelling(n / 10);
      OneMoreDigit(Spelling(n / 10), n % 10);
    }
  }

  lemma NothingSpelled()
    ensures Number("") == 0 && Dec.All("")
  {
  }

  function Pow10(k: nat): (p: nat)
    ensures p >= 1
  {
    if k == 0 then 1 else 10 * Pow10(k - 1)
  }

  lemma {:induction false} NumberBounds(s: string)
    requires Dec.All(s)
    ensures Number(s) < Pow10(|s|)
    ensures s != "" && s[0] != '0' ==> Pow10(|s| - 1) <= Number(s)
  {
    if s != "" {
      var t := s[..|s| - 1];
      NumberBounds(t);
      assert Dec.Has(s[|s| - 1]);
      assert t == "" || t[0] == s[0];
    }
  }

  lemma {:induction false} Pow10Grows(i: nat, j: nat)
    requires i <= j
    ensures Pow10(i) <= Pow10(j)
    decreases j
  {
    if i < j {
      Pow10Grows(i, j - 1);
    }
  }

  lemma {:induction false} LexSnoc(a: seq<int>, b: seq<int>, x: int, y: int)
    requires |a| == |b|
    ensures Lex(a + [x], b + [y]) == if a == b then Sign(x, y) else Lex(a, b)
  {
    if a == [] {
      LexOne(x, y);
      assert a + [x] == [x] && b + [y] == [y];
    } else {
      assert (a + [x])[1..] == a[1..] + [x] && (b + [y])[1..] == b[1..] + [y];
      LexSnoc(a[1..], b[1..], x, y);
      assert a == [a[0]] + a[1..] && b == [b[0]] + b[1..];
    }
  }

  lemma CodesSnoc(s: string)
    requires s != ""
    ensures Codes(s) == Codes(s[..|s| - 1]) + [s[|s| - 1] as int]
  {
  }

  lemma {:induction false} CodesInjective(a: string, b: string)
    ensures Codes(a) == Codes(b) <==> a == b
  {
    if Codes(a) == Codes(b) {
      forall i | 0 <= i < |a| ensures a[i] == b[i] {
        assert Codes(a)[i] == Codes(b)[i];
      }
    }
  }

  /** Numbers of equally many digits are ordered as their texts. */
  lemma {:induction false} SameLength(a: string, b: string)
    requires Dec.All(a) && Dec.All(b) && |a| == |b|
    ensures Sign(Number(a), Number(b)) == Lex(Codes(a), Codes(b))
  {
    if a != "" {
      hide Lex;
      var (p, q) := (a[..|a| - 1], b[..|b| - 1]);
      SameLength(p, q);
      CodesSnoc(a);
      CodesSnoc(b);
      LexSnoc(Codes(p), Codes(q), a[|a| - 1] as int, b[|b| - 1] as int);
      CodesInjective(p, q);
      LexLaws(Codes(p), Codes(q));
      assert Dec.Has(a[|a| - 1]) && Dec.Has(b[|b| - 1]);
    }
  }

  /** Of two numbers without leading zero the one with more digits is greater, and of equally many the one whose
      text is. */
  lemma DigitsDecide(a: string, b: string)
    requires Dec.All(a) && Dec.All(b) && a != "" && b != "" && a[0] != '0' && b[0] != '0'
    ensures Sign(Number(a), Number(b)) == if |a| != |b| then Sign(|a|, |b|) else Lex(Codes(a), Codes(b))
  {
    hide Number;
    NumberBounds(a);
    NumberBounds(b);
    if |a| < |b| {
      Pow10Grows(|a|, |b| - 1);
    } else if |b| < |a| {
      Pow10Grows(|b|, |a| - 1);
    } else {
      SameLength(a, b);
    }
  }

  // ----- the first difference decides

  lemma {:induction false} CommonStart(p: seq<Token>, r: seq<Token>, s: seq<Token>)
    ensures LexKeys(Keys(p + r), Keys(p + s)) == LexKeys(Keys(r), Keys(s))
  {
    if p == [] {
      assert p + r == r && p + s == s;
    } else {
      hide Key, Lex;
      assert (p + r)[0] == p[0] && (p + r)[1..] == p[1..] + r;
      assert (p + s)[0] == p[0] && (p + s)[1..] == p[1..] + s;
      LexLaws(Key(p[0]), Key(p[0]));
      CommonStart(p[1..], r, s);
      assert ([Key(p[0])] + Keys(p[1..] + r))[1..] == Keys(p[1..] + r);
      assert ([Key(p[0])] + Keys(p[1..] + s))[1..] == Keys(p[1..] + s);
    }
  }

  /** Two versions with the tokens `p` in common, then `x` and `y`. */
  ghost predicate Differ(a: string, b: string, p: seq<Token>, x: Token, y: Token, r: seq<Token>, s: seq<Token>) {
    && IsVersion(a) && IsVersion(b)
    && Parse(a).value == p + ([x] + r) && Parse(b).value == p + ([y] + s)
  }

  lemma FirstDifference(a: string, b: string, p: seq<Token>, x: Token, y: Token, r: seq<Token>, s: seq<Token>)
    requires Differ(a, b, p, x, y, r, s)
    ensures TokenOk(x) && TokenOk(y)
    ensures Lex(Key(x), Key(y)) != 0 ==> Order(a, b) == Lex(Key(x), Key(y))
    ensures Key(x) == Key(y) && r == s ==> Order(a, b) == 0
  {
    hide Key, Lex, Parse, TokenOk, Keys, LexKeys, AllOk;
    CommonStart(p, [x] + r, [y] + s);
    VersionOk(a, p, x, r);
    VersionOk(b, p, y, s);
    LexFirst(x, y, r, s);
  }

  lemma VersionOk(a: string, p: seq<Token>, x: Token, r: seq<Token>)
    requires IsVersion(a) && Parse(a).value == p + ([x] + r)
    ensures TokenOk(x)
  {
    hide TokenOk, ParseFrom, Grammar, Print;
    PrintUndoesParse(Start, a);
    GrammarAllOk(Start, Parse(a).value);
    assert (p + ([x] + r))[|p|] == x;
  }

  lemma LexFirst(x: Token, y: Token, r: seq<Token>, s: seq<Token>)
    ensures Lex(Key(x), Key(y)) != 0 ==> LexKeys(Keys([x] + r), Keys([y] + s)) == Lex(Key(x), Key(y))
    ensures Key(x) == Key(y) && r == s ==> LexKeys(Keys([x] + r), Keys([y] + s)) == 0
  {
    hide Key, Lex;
    assert ([x] + r)[1..] == r && ([y] + s)[1..] == s;
    LexKeysLaws(Keys([x] + r), Keys([y] + s));
  }

  /** The order of the kinds, with the two kinds of suffixes apart. The end of a version stands between the first
      and the second, as `LongerIsNewer` says. */
  function Rank(t: Token): nat {
    match t
    case Suffix(rank) => if rank < RANK_NONE then 0 else 4
    case Revision(_) => 1
    case Hash(_) => 2
    case SuffixNo(_) => 3
    case Letter(_) => 5
    case Digit(_) => 6
    case Initial(_) => 7
  }

  /** Where the kinds differ, the version with the higher kind is newer. */
  lemma KindDecides(a: string, b: string, p: seq<Token>, x: Token, y: Token, r: seq<Token>, s: seq<Token>)
    requires Differ(a, b, p, x, y, r, s) && Rank(x) != Rank(y)
    ensures Order(a, b) == Sign(Rank(x), Rank(y))
  {
    hide Parse, Number, Order, IsVersion;
    FirstDifference(a, b, p, x, y, r, s);
  }

  /** Dotted numbers below 2^64 without leading zero: more digits are newer, of equally many the greater text. */
  lemma DottedDecides(a: string, b: string, p: seq<Token>, x: string, y: string, r: seq<Token>, s: seq<Token>)
    requires Differ(a, b, p, Digit(x), Digit(y), r, s) && x != y
    requires x != "" && y != "" && x[0] != '0' && y[0] != '0' && Number(x) < UINT64 && Number(y) < UINT64
    ensures Order(a, b) == if |x| != |y| then Sign(|x|, |y|) else Lex(Codes(x), Codes(y))
  {
    hide Parse, Number, Order, IsVersion, Lex, Key, DigitCmp, Class.All;
    FirstDifference(a, b, p, Digit(x), Digit(y), r, s);
    DottedKey(x, y);
    DottedValue(x, y);
    CodesInjective(x, y);
    LexLaws(Codes(x), Codes(y));
  }

  lemma DottedValue(x: string, y: string)
    requires TokenOk(Digit(x)) && TokenOk(Digit(y)) && x[0] != '0' && y[0] != '0'
    requires Number(x) < UINT64 && Number(y) < UINT64
    ensures DigitCmp(x, y, true) == if |x| != |y| then Sign(|x|, |y|) else Lex(Codes(x), Codes(y))
  {
    hide Number, Lex;
    DigitsDecide(x, y);
    assert x[..1] != "0" && y[..1] != "0";
  }

  /** Dotted numbers, one of them with a leading zero: the greater text is newer. */
  lemma ZeroDecides(a: string, b: string, p: seq<Token>, x: string, y: string, r: seq<Token>, s: seq<Token>)
    requires Differ(a, b, p, Digit(x), Digit(y), r, s) && x != y
    requires x != "" && y != "" && (x[0] == '0' || y[0] == '0')
    ensures Order(a, b) == Lex(Codes(x), Codes(y))
  {
    hide Parse, Number, Order, IsVersion, Lex, Key, TokenCmp;
    FirstDifference(a, b, p, Digit(x), Digit(y), r, s);
    DottedKey(x, y);
    CodesInjective(x, y);
    LexLaws(Codes(x), Codes(y));
    assert x[..1] == [x[0]] && y[..1] == [y[0]];
  }

  /** The same kind of number, for the kinds that ignore leading zeros. */
  predicate Plain(x: Token, y: Token) {
    (x.Initial? && y.Initial?) || (x.SuffixNo? && y.SuffixNo?) || (x.Revision? && y.Revision?)
  }

  /** Initial numbers, suffix numbers and revisions are ordered by value modulo 2^64. */
  lemma ValueDecides(a: string, b: string, p: seq<Token>, x: Token, y: Token, r: seq<Token>, s: seq<Token>)
    requires Plain(x, y) && Differ(a, b, p, x, y, r, s)
    ensures var (n, m) := (Number(x.digits) % UINT64, Number(y.digits) % UINT64);
            && (n != m ==> Order(a, b) == Sign(n, m))
            && (n == m && r == s ==> Order(a, b) == 0)
  {
    hide Parse, Number, Order, IsVersion;
    FirstDifference(a, b, p, x, y, r, s);
    TokenCmpIsKeys(x, y);
  }

  /** The wrap: a number and the same number plus 2^64 make no difference, in any of these places. */
  lemma WrapsAround(a: string, b: string, p: seq<Token>, x: Token, y: Token, r: seq<Token>, n: nat)
    requires Plain(x, y) && Differ(a, b, p, x, y, r, r)
    requires x.digits == Spelling(n) && y.digits == Spelling(n + 0x1_0000_0000_0000_0000)
    ensures Order(a, b) == 0
  {
    hide Parse, Number, Spelling, Order, IsVersion;
    NumberOfSpelling(n);
    NumberOfSpelling(n + UINT64);
    ValueDecides(a, b, p, x, y, r, r);
  }

  /** Letters, suffixes and hashes are ordered as letters, by rank and as texts. */
  lemma TextDecides(a: string, b: string, p: seq<Token>, x: Token, y: Token, r: seq<Token>, s: seq<Token>)
    requires Differ(a, b, p, x, y, r, s) && x != y
    ensures x.Letter? && y.Letter? ==> Order(a, b) == Sign(x.letter as int, y.letter as int)
    ensures x.Suffix? && y.Suffix? ==> Order(a, b) == Sign(x.rank, y.rank)
    ensures x.Hash? && y.Hash? ==> Order(a, b) == Lex(Codes(x.hex), Codes(y.hex))
  {
    hide Parse, Number, Order, IsVersion, Key, Lex;
    FirstDifference(a, b, p, x, y, r, s);
    if KindOf(x) == KindOf(y) {
      TokenCmpIsKeys(x, y);
    }
    if x.Hash? && y.Hash? {
      CodesInjective(x.hex, y.hex);
      LexLaws(Codes(x.hex), Codes(y.hex));
    }
  }

  lemma OneDot(d: string)
    requires d != "" && Dec.All(d)
    ensures Parse("1." + d) == Some([Initial("1")] + ([Digit(d)] + []))
  {
    hide TokenOk, PrintToken, Follows, KindOf, Print, Grammar;
    var (one, dot) := (Initial("1"), Digit(d));
    OneOk();
    assert TokenOk(dot) && KindOf(dot) == KDigit && KindOf(one) == KInitial by { DotOk(d); }
    assert Grammar(KDigit, []) && Print([]) == "" by { EmptyOk(); }
    Cons(KInitial, dot, []);
    Cons(Start, one, [dot] + []);
    assert PrintToken(one) == "1" && PrintToken(dot) == "." + d by { DotOk(d); }
    assert "1" + (("." + d) + "") == "1." + d;
    ParseUndoesPrint(Start, [one] + ([dot] + []));
  }

  lemma OneOk()
    ensures TokenOk(Initial("1")) && Follows(Start, KInitial) && Follows(KInitial, KDigit)
  {
  }

  lemma DotOk(d: string)
    requires d != "" && Dec.All(d)
    ensures TokenOk(Digit(d)) && KindOf(Digit(d)) == KDigit && KindOf(Initial("1")) == KInitial
    ensures PrintToken(Initial("1")) == "1" && PrintToken(Digit(d)) == "." + d
  {
  }

  lemma EmptyOk()
    ensures Grammar(KDigit, []) && Print([]) == ""
  {
  }

  /** Any two numbers below 2^64, spelled after `1.`, are ordered as numbers: 1.9 is older than 1.10. */
  lemma NumbersOrderVersions(n: nat, m: nat)
    requires 0 < n < 0x1_0000_0000_0000_0000 && 0 < m < 0x1_0000_0000_0000_0000
    ensures var (a, b) := ("1." + Spelling(n), "1." + Spelling(m));
            && IsVersion(a) && IsVersion(b)
            && (n < m ==> Order(a, b) == -1) && (n == m ==> Order(a, b) == 0) && (n > m ==> Order(a, b) == 1)
  {
    hide Parse, Number, Spelling, Lex, Keys, LexKeys, Class.All;
    var (x, y) := (Spelling(n), Spelling(m));
    NumberOfSpelling(n);
    NumberOfSpelling(m);
    OneDot(x);
    OneDot(y);
    if x == y {
      LexKeysLaws(Keys(Parse("1." + x).value), Keys(Parse("1." + y).value));
    } else {
      DottedDecides("1." + x, "1." + y, [Initial("1")], x, y, [], []);
      DigitsDecide(x, y);
    }
  }

  // ----- index_max

  /** The versions recorded for the package, in order; `current` is the package of the block the
      lines start in. */
  function Recorded(lines: seq<string>, package: string, current: Option<string>): seq<string> {
    if lines == [] then []
    else
      var line := lines[0];
      if "P:" <= line then Recorded(lines[1..], package, Some(line[2..]))
      else if "V:" <= line && current == Some(package) then [line[2..]] + Recorded(lines[1..], package, current)
      else Recorded(lines[1..], package, current)
  }

  /** The version at `j` is recorded for the package: the nearest package line above it names the package. */
  ghost predicate RecordedAt(lines: seq<string>, package: string, v: string, i: nat, j: nat) {
    && i < j < |lines| && lines[i] == "P:" + package && lines[j] == "V:" + v
    && forall k :: i < k < j ==> !("P:" <= lines[k])
  }

  /** The version at `j` belongs to the block the lines start in. */
  ghost predicate AtStart(lines: seq<string>, v: string, j: nat) {
    j < |lines| && lines[j] == "V:" + v && forall k :: 0 <= k < j ==> !("P:" <= lines[k])
  }

  ghost predicate Somewhere(lines: seq<string>, package: string, v: string) {
    exists i: nat, j: nat :: RecordedAt(lines, package, v, i, j)
  }

  ghost predicate Begins(lines: seq<string>, v: string) {
    exists j: nat :: AtStart(lines, v, j)
  }

  lemma SomewhereHead(lines: seq<string>, package: string, v: string)
    requires lines != []
    ensures Somewhere(lines, package, v)
            <==> Somewhere(lines[1..], package, v) || (lines[0] == "P:" + package && Begins(lines[1..], v))
  {
    var rest := lines[1..];
    assert forall i :: 0 <= i < |rest| ==> rest[i] == lines[i + 1];
    if Somewhere(lines, package, v) {
      var i: nat, j: nat :| RecordedAt(lines, package, v, i, j);
      if i > 0 {
        assert RecordedAt(rest, package, v, i - 1, j - 1);
      } else {
        assert AtStart(rest, v, j - 1);
      }
    }
    if Somewhere(rest, package, v) {
      var i: nat, j: nat :| RecordedAt(rest, package, v, i, j);
      assert RecordedAt(lines, package, v, i + 1, j + 1);
    }
    if lines[0] == "P:" + package && Begins(rest, v) {
      var j: nat :| AtStart(rest, v, j);
      assert RecordedAt(lines, package, v, 0, j + 1);
    }
  }

  lemma BeginsHead(lines: seq<string>, v: string)
    requires lines != []
    ensures Begins(lines, v) <==> lines[0] == "V:" + v || (!("P:" <= lines[0]) && Begins(lines[1..], v))
  {
    var rest := lines[1..];
    assert forall i :: 0 <= i < |rest| ==> rest[i] == lines[i + 1];
    if Begins(lines, v) {
      var j: nat :| AtStart(lines, v, j);
      if j > 0 {
        assert AtStart(rest, v, j - 1);
      }
    }
    if lines[0] == "V:" + v {
      assert AtStart(lines, v, 0);
    }
    if !("P:" <= lines[0]) && Begins(rest, v) {
      var j: nat :| AtStart(rest, v, j);
      assert AtStart(lines, v, j + 1);
    }
  }

  lemma Marked(mark: string, line: string, v: string)
    ensures line == mark + v <==> mark <= line && line[|mark|..] == v
  {
    if mark <= line {
      assert line == mark + line[|mark|..];
    }
  }

  lemma {:induction false} RecordedFrom(lines: seq<string>, package: string, current: Option<string>, v: string)
    ensures v in Recorded(lines, package, current)
            <==> Somewhere(lines, package, v) || (current == Some(package) && Begins(lines, v))
    decreases |lines|
  {
    if lines != [] {
      hide Somewhere, Begins;
      var (line, rest) := (lines[0], lines[1..]);
      RecordedFrom(rest, package, if "P:" <= line then Some(line[2..]) else current, v);
      SomewhereHead(lines, package, v);
      BeginsHead(lines, v);
      Marked("P:", line, package);
      Marked("V:", line, v);
      assert "P:"[0] != "V:"[0];
    }
  }

  /** What is recorded for a package, on the lines themselves. */
  lemma RecordedExactly(lines: seq<string>, package: string, v: string)
    ensures v in Recorded(lines, package, None) <==>
              exists i: nat, j: nat :: RecordedAt(lines, package, v, i, j)
  {
    RecordedFrom(lines, package, None, v);
  }

  /** `k` is the first of the greatest among `vs`. */
  ghost predicate FirstGreatest(vs: seq<string>, k: nat) {
    && k < |vs|
    && (forall i :: 0 <= i < |vs| ==> IsVersion(vs[i]))
    && (forall i :: 0 <= i < |vs| ==> Order(vs[i], vs[k]) <= 0)
    && (forall i :: 0 <= i < k ==> Order(vs[i], vs[k]) < 0)
  }

  lemma FirstGreatestStep(vs: seq<string>, k: nat, v: string)
    requires FirstGreatest(vs, k) && IsVersion(v)
    ensures if Order(v, vs[k]) > 0 then FirstGreatest(vs + [v], |vs|) else FirstGreatest(vs + [v], k)
  {
    hide IsVersion, Order;
    var ws := vs + [v];
    OrderIsTotalPreorder(v, vs[k], v);
    assert forall i :: 0 <= i < |vs| ==> ws[i] == vs[i];
    forall i | 0 <= i < |vs| ensures Order(v, vs[k]) > 0 ==> Order(vs[i], v) < 0 {
      OrderIsTotalPreorder(vs[i], vs[k], v);
    }
    forall i | 0 <= i < |ws| ensures IsVersion(ws[i]) && (Order(v, vs[k]) > 0 ==> Order(ws[i], v) <= 0)
    {
      if i < |vs| { assert ws[i] == vs[i]; }
    }
  }

  /** `index_max`: an error when a recorded version does not parse, nothing when none is recorded,
      and otherwise the first of the greatest recorded versions. */
  method IndexMax(lines: seq<string>, package: string) returns (r: Result<Option<string>>)
    ensures var vs := Recorded(lines, package, None);
            match r
            case Err(_) => exists i :: 0 <= i < |vs| && !IsVersion(vs[i])
            case Ok(None) => vs == []
            case Ok(Some(v)) => exists k: nat :: FirstGreatest(vs, k) && vs[k] == v
  {
    hide Order, IsVersion;
    ghost var vs := Recorded(lines, package, None);
    ghost var seen: seq<string> := [];
    ghost var k: nat := 0;
    var best: Option<string> := None;
    var current: Option<string> := None;
    assert lines[0..] == lines;
    for i := 0 to |lines|
      invariant vs == seen + Recorded(lines[i..], package, current)
      invariant best.None? ==> seen == []
      invariant best.Some? ==> FirstGreatest(seen, k) && seen[k] == best.value
    {
      var line := lines[i];
      assert lines[i..][0] == line && lines[i..][1..] == lines[i + 1..];
      if "P:" <= line {
        current := Some(line[2..]);
      } else if "V:" <= line && current == Some(package) {
        var candidate := line[2..];
        assert vs == (seen + [candidate]) + Recorded(lines[i + 1..], package, current);
        var parsed := ParseVersion(candidate);
        if parsed.None? {
          assert vs[|seen|] == candidate && !IsVersion(candidate) by { NotVersion(candidate); }
          return Err("invalid version");
        }
        IsVersionOf(candidate);
        if best.None? {
          best, seen, k := Some(candidate), [candidate], 0;
          OrderIsTotalPreorder(candidate, candidate, candidate);
        } else {
          FirstGreatestStep(seen, k, candidate);
          var c := Compare(candidate, best.value);
          if c.value > 0 {
            best, k := Some(candidate), |seen|;
          }
          seen := seen + [candidate];
        }
      }
    }
    assert vs == seen;
    return Ok(best);
  }

  lemma NotVersion(v: string)
    requires Parse(v).None?
    ensures !IsVersion(v)
  {
  }

  lemma IsVersionOf(v: string)
    requires Parse(v).Some?
    ensures IsVersion(v)
  {
  }
}
