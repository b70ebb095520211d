/**
 utils/string.go: ToSnakeCase, two regular-expression rewrites followed by lower-casing,
 and the proof that together they are one rule that looks only at neighbouring characters.
 */
module SnakeCase {
  import opened Text

  predicate IsUpper(c: char) { 'A' <= c <= 'Z' }

  predicate IsLower(c: char) { 'a' <= c <= 'z' }

  predicate IsLowerOrDigit(c: char) { IsLower(c) || '0' <= c <= '9' }

  // ---------- the two patterns ----------

  /** FirstCap is (.)([A-Z][a-z]+) and AllCap is ([a-z0-9])([A-Z]); a dot is any character but newline. */
  datatype Pattern = FirstCap | AllCap

  /** The texts a pattern matches in full, by the letters of its classes. */
  ghost predicate InPattern(p: Pattern, w: string) {
    match p
    case FirstCap => |w| >= 3 && w[0] != '\n' && 'A' <= w[1] <= 'Z' && forall k :: 2 <= k < |w| ==> 'a' <= w[k] <= 'z'
    case AllCap => |w| == 2 && ('a' <= w[0] <= 'z' || '0' <= w[0] <= '9') && 'A' <= w[1] <= 'Z'
  }

  /** Where the run of small letters that starts at position i ends. */
  function LowerEnd(s: string, i: nat): (j: nat)
    requires i <= |s|
    ensures i <= j <= |s|
    ensures forall k :: i <= k < j ==> IsLower(s[k])
    ensures j < |s| ==> !IsLower(s[j])
    decreases |s| - i
  {
    if i < |s| && IsLower(s[i]) then LowerEnd(s, i + 1) else i
  }

  /** The length of the match at the start of s, 0 when there is none. */
  function MatchLen(p: Pattern, s: string): (n: nat)
    ensures n <= |s| && n != 1
  {
    match p
    case FirstCap =>
      if |s| >= 3 && s[0] != '\n' && IsUpper(s[1]) && IsLower(s[2]) then LowerEnd(s, 2) else 0
    case AllCap =>
      if |s| >= 2 && IsLowerOrDigit(s[0]) && IsUpper(s[1]) then 2 else 0
  }

  /** The match is greedy: it is the longest prefix in the pattern, and 0 says that no prefix is. */
  lemma MatchLenIsGreedy(p: Pattern, s: string)
    ensures MatchLen(p, s) > 0 ==> InPattern(p, s[..MatchLen(p, s)])
    ensures forall m :: MatchLen(p, s) < m <= |s| ==> !InPattern(p, s[..m])
  {
  }

  /** What the scan writes for a match of n characters at the start of s; for n = 0 it copies one character. */
  function Piece(s: string, n: nat): string
    requires 0 < |s| && n <= |s| && n != 1
  {
    if n > 0 then [s[0], '_'] + s[1..n] else [s[0]]
  }

  function Advance(n: nat): (k: nat)
    ensures k > 0
  {
    if n > 0 then n else 1
  }

  /**
   Replaces every match by "${1}_${2}". Matches are taken from the left, each as long as it
   can be, and the scan goes on behind the text a match has consumed. Group 1 is one character.
   */
  function ReplaceAll(p: Pattern, s: string): string
    decreases |s|
  {
    if s == [] then []
    else
      var n := MatchLen(p, s);
      Piece(s, n) + ReplaceAll(p, s[Advance(n)..])
  }

  method MatchAt(p: Pattern, src: string, i: nat) returns (n: nat)
    requires i <= |src|
    ensures n == MatchLen(p, src[i..])
  {
    match p {
      case FirstCap =>
        if i + 2 < |src| && src[i] != '\n' && IsUpper(src[i + 1]) && IsLower(src[i + 2]) {
          var j := i + 2;
          while j < |src| && IsLower(src[j])
            invariant i + 2 <= j <= |src|
            invariant LowerEnd(src[i..], 2) == LowerEnd(src[i..], j - i)
          {
            j := j + 1;
          }
          n := j - i;
        } else {
          n := 0;
        }
      case AllCap =>
        n := if i + 1 < |src| && IsLowerOrDigit(src[i]) && IsUpper(src[i + 1]) then 2 else 0;
    }
  }

  /** One round of the scan. */
  lemma ReplaceAllStep(p: Pattern, src: string, i: nat)
    requires i < |src|
    ensures var n := MatchLen(p, src[i..]);
            ReplaceAll(p, src[i..]) == Piece(src[i..], n) + ReplaceAll(p, src[i + Advance(n)..])
  {
    hide MatchLen, Piece;
    var t := src[i..];
    var k := Advance(MatchLen(p, t));
    assert t[k..] == src[i + k..];
  }

  lemma ConcatAssoc(a: string, b: string, c: string)
    ensures a + (b + c) == a + b + c
  {
  }

  /** The scan the regular-expression library makes. */
  method ReplaceAllString(p: Pattern, src: string) returns (out: string)
    ensures out == ReplaceAll(p, src)
  {
    hide MatchLen, Piece;
    out := "";
    var i := 0;
    assert src[0..] == src;
    while i < |src|
      invariant 0 <= i <= |src|
      invariant ReplaceAll(p, src) == out + ReplaceAll(p, src[i..])
    {
      var n := MatchAt(p, src, i);
      var piece := Piece(src[i..], n);
      ReplaceAllStep(p, src, i);
      ConcatAssoc(out, piece, ReplaceAll(p, src[i + Advance(n)..]));
      out := out + piece;
      i := i + Advance(n);
    }
    assert src[i..] == [];
  }

  // ---------- lower-casing ----------

  /**
   What the lower-casing of single characters has to satisfy. On ASCII it is fixed; elsewhere
   it may be anything that yields no capital and no ASCII character other than a small letter.
   */
  ghost predicate CaseMap(lower: char -> char) {
    && (forall c: char :: 'A' <= c <= 'Z' ==> lower(c) == (c as int + 32) as char)
    && (forall c: char :: c < '\U{80}' && !('A' <= c <= 'Z') ==> lower(c) == c)
    && (forall c: char :: lower(c) < '\U{80}' ==> 'a' <= lower(c) <= 'z' || lower(c) == c)
    && (forall c: char :: !('A' <= lower(c) <= 'Z'))
  }

  function AsciiLower(c: char): char {
    if IsUpper(c) then (c as int + 32) as char else c
  }

  /** Plain ASCII lower-casing is one such map. */
  lemma AsciiLowerIsCaseMap()
    ensures CaseMap(AsciiLower)
  {
  }

  function ToLower(lower: char -> char, s: string): (r: string)
    ensures |r| == |s| && forall i :: 0 <= i < |s| ==> r[i] == lower(s[i])
  {
    seq(|s|, i requires 0 <= i < |s| => lower(s[i]))
  }

  lemma ToLowerConcat(lower: char -> char, a: string, b: string)
    ensures ToLower(lower, a + b) == ToLower(lower, a) + ToLower(lower, b)
  {
  }

  lemma ToLowerFixed(lower: char -> char, s: string)
    requires CaseMap(lower)
    requires forall c :: c in s ==> c < '\U{80}' && !IsUpper(c)
    ensures ToLower(lower, s) == s
  {
    assert forall i :: 0 <= i < |s| ==> s[i] in s && lower(s[i]) == s[i];
  }

  function Snake(lower: char -> char, s: string): string {
    ToLower(lower, ReplaceAll(AllCap, ReplaceAll(FirstCap, s)))
  }

  method ToSnakeCase(lower: char -> char, str: string) returns (r: string)
    ensures r == Snake(lower, str)
    ensures |r| == |MarkedFrom(str, 0)| && forall i :: 0 <= i < |r| ==> r[i] == lower(MarkedFrom(str, 0)[i])
  {
    SnakeCaseIsLocal(lower, str);
    var snake := ReplaceAllString(FirstCap, str);
    snake := ReplaceAllString(AllCap, snake);
    r := ToLower(lower, snake);
  }

  // ---------- the local rule ----------

  /**
   Whether an underscore goes in front of s[i]: it depends on s[i-1], s[i] and s[i+1] only. The
   ranges are written out, so that the rule stands apart from the character classes of the scan.
   */
  predicate BreakAt(s: string, i: nat)
    requires i < |s|
  {
    i > 0 && 'A' <= s[i] <= 'Z' &&
    ('a' <= s[i - 1] <= 'z' || '0' <= s[i - 1] <= '9' ||
     (s[i - 1] != '\n' && i + 1 < |s| && 'a' <= s[i + 1] <= 'z'))
  }

  function MarkedFrom(s: string, i: nat): string
    requires i <= |s|
    decreases |s| - i
  {
    if i == |s| then []
    else (if BreakAt(s, i) then "_" else "") + [s[i]] + MarkedFrom(s, i + 1)
  }

  /** The same rule read off a suffix s and the character q before it. */
  predicate Break(q: Option<char>, s: string)
    requires |s| > 0
  {
    q.Some? && IsUpper(s[0]) &&
    (IsLowerOrDigit(q.value) || (q.value != '\n' && |s| > 1 && IsLower(s[1])))
  }

  function Mark(q: Option<char>, s: string): string
    decreases |s|
  {
    if s == [] then []
    else (if Break(q, s) then "_" else "") + [s[0]] + Mark(Some(s[0]), s[1..])
  }

  lemma {:induction false} MarkedFromIsMark(s: string, i: nat)
    requires i <= |s|
    ensures MarkedFrom(s, i) == Mark(if i == 0 then None else Some(s[i - 1]), s[i..])
    decreases |s| - i
  {
    if i < |s| {
      MarkedFromIsMark(s, i + 1);
      assert s[i..][1..] == s[i + 1..];
    }
  }

  /** The last character of a, or what stands before a when a is empty. */
  function LastOf(q: Option<char>, a: string): Option<char> {
    if a == [] then q else Some(a[|a| - 1])
  }

  /** The rule may be applied to two parts separately when the second does not start with a small letter. */
  lemma {:induction false} MarkConcat(q: Option<char>, a: string, b: string)
    requires b == [] || !IsLower(b[0])
    ensures Mark(q, a + b) == Mark(q, a) + Mark(LastOf(q, a), b)
    decreases |a|
  {
    if a == [] {
      assert a + b == b;
    } else {
      hide Mark;
      var c, u := a[0], a[1..];
      MarkConcat(Some(c), u, b);
      MarkHead(q, c, u + b);
      MarkHead(q, c, u);
      assert a == [c] + u && a + b == [c] + (u + b);
      var head := if Break(q, [c] + u) then "_" else "";
      ConcatAssoc(head + [c], Mark(Some(c), u), Mark(LastOf(q, a), b));
    }
  }

  lemma {:induction false} MarkNoCapitals(q: Option<char>, s: string)
    requires forall c :: c in s ==> !IsUpper(c)
    ensures Mark(q, s) == s
    decreases |s|
  {
    if s != [] {
      MarkNoCapitals(Some(s[0]), s[1..]);
    }
  }

  lemma {:induction false} MarkLowerRun(q: Option<char>, w: string, t: string)
    requires forall c :: c in w ==> IsLower(c)
    ensures Mark(q, w + t) == w + Mark(LastOf(q, w), t)
    decreases |w|
  {
    if w == [] {
      assert w + t == t;
    } else {
      hide Mark;
      var c, u := w[0], w[1..];
      MarkLowerRun(Some(c), u, t);
      MarkHead(q, c, u + t);
      assert IsLower(c) && w == [c] + u && w + t == [c] + (u + t);
      ConcatAssoc([c], u, Mark(LastOf(q, w), t));
    }
  }

  // ---------- the second pass on its own ----------

  predicate AllCapBreak(q: Option<char>, c: char) {
    q.Some? && ('a' <= q.value <= 'z' || '0' <= q.value <= '9') && 'A' <= c <= 'Z'
  }

  function AllCapMark(q: Option<char>, s: string): string
    decreases |s|
  {
    if s == [] then []
    else (if AllCapBreak(q, s[0]) then "_" else "") + [s[0]] + AllCapMark(Some(s[0]), s[1..])
  }

  /** No two matches of the second pattern overlap, so its scan loses none. */
  lemma {:induction false} AllCapIsLocal(q: Option<char>, s: string)
    requires s == [] || !AllCapBreak(q, s[0])
    ensures ReplaceAll(AllCap, s) == AllCapMark(q, s)
    decreases |s|
  {
    if s != [] {
      var n := MatchLen(AllCap, s);
      if n > 0 {
        var rest := s[2..];
        AllCapIsLocal(Some(s[1]), rest);
        assert Piece(s, n) == [s[0], '_', s[1]];
        AllCapMarkTwo(q, s[0], s[1], rest);
        assert s == [s[0], s[1]] + rest;
      } else {
        AllCapIsLocal(Some(s[0]), s[1..]);
      }
    }
  }

  lemma AllCapMarkTwo(q: Option<char>, a: char, b: char, rest: string)
    requires !AllCapBreak(q, a) && AllCapBreak(Some(a), b)
    ensures AllCapMark(q, [a, b] + rest) == [a, '_', b] + AllCapMark(Some(b), rest)
  {
  }

  lemma {:induction false} AllCapMarkLowerRun(q: Option<char>, w: string, t: string)
    requires forall c :: c in w ==> IsLower(c)
    ensures AllCapMark(q, w + t) == w + AllCapMark(LastOf(q, w), t)
    decreases |w|
  {
    if w == [] {
      assert w + t == t;
    } else {
      hide AllCapMark;
      var c, u := w[0], w[1..];
      AllCapMarkLowerRun(Some(c), u, t);
      AllCapMarkHead(q, c, u + t);
      assert IsLower(c) && w == [c] + u && w + t == [c] + (u + t);
      ConcatAssoc([c], u, AllCapMark(LastOf(q, w), t));
    }
  }

  // ---------- the first pass, and what the second recovers ----------

  /** No match of the first pattern starts at q; or q ends one, and then it is a small letter. */
  predicate NotPending(q: Option<char>, s: string) {
    q.None? || IsLower(q.value) ||
    !(q.value != '\n' && |s| >= 2 && IsUpper(s[0]) && IsLower(s[1]))
  }

  predicate CapitalRun(block: string) {
    |block| >= 2 && IsUpper(block[0]) && forall k :: 1 <= k < |block| ==> IsLower(block[k])
  }

  lemma MarkBlock(q: Option<char>, block: string, t: string)
    requires CapitalRun(block) && q.Some? && q.value != '\n'
    ensures Mark(q, block + t) == "_" + block + Mark(LastOf(None, block), t)
  {
    var low := block[1..];
    var s := block + t;
    assert s[0] == block[0] && s[1] == block[1] && s[1..] == low + t;
    MarkLowerRun(Some(block[0]), low, t);
    assert block == [block[0]] + low;
  }

  lemma AllCapMarkBlock(block: string, t: string)
    requires CapitalRun(block)
    ensures AllCapMark(Some('_'), block + t) == block + AllCapMark(LastOf(None, block), t)
  {
    var low := block[1..];
    var s := block + t;
    assert s[0] == block[0] && s[1..] == low + t;
    AllCapMarkLowerRun(Some(block[0]), low, t);
    assert block == [block[0]] + low;
  }

  lemma MarkHead(q: Option<char>, c: char, tail: string)
    ensures Mark(q, [c] + tail) == (if Break(q, [c] + tail) then "_" else "") + [c] + Mark(Some(c), tail)
  {
  }

  lemma AllCapMarkHead(q: Option<char>, c: char, tail: string)
    ensures AllCapMark(q, [c] + tail) == (if AllCapBreak(q, c) then "_" else "") + [c] + AllCapMark(Some(c), tail)
  {
  }

  /** A match of the first pattern, once both passes are over. */
  lemma MatchedBlock(q: Option<char>, d: char, block: string, t: string, rest: string)
    requires d != '\n' && CapitalRun(block) && NotPending(q, [d] + (block + t))
    requires AllCapMark(LastOf(None, block), rest) == Mark(LastOf(None, block), t)
    ensures AllCapMark(q, [d] + ("_" + (block + rest))) == Mark(q, [d] + (block + t))
  {
    hide CapitalRun, LastOf, AllCapMark, Mark;
    AllCapMarkHead(q, d, "_" + (block + rest));
    AllCapMarkHead(Some(d), '_', block + rest);
    AllCapMarkBlock(block, rest);
    MarkHead(q, d, block + t);
    MarkBlock(Some(d), block, t);
    assert "" + "_" + (block + Mark(LastOf(None, block), t)) == "_" + block + Mark(LastOf(None, block), t);
  }

  lemma MatchedPiece(s: string, n: nat, rest: string)
    requires n == MatchLen(FirstCap, s) > 0
    ensures s == [s[0]] + (s[1..n] + s[n..])
    ensures Piece(s, n) + rest == [s[0]] + ("_" + (s[1..n] + rest))
    ensures s[0] != '\n' && CapitalRun(s[1..n]) && LastOf(None, s[1..n]) == Some(s[n - 1]) && IsLower(s[n - 1])
  {
  }

  lemma {:induction false} PassesAreLocal(q: Option<char>, s: string)
    requires NotPending(q, s)
    ensures AllCapMark(q, ReplaceAll(FirstCap, s)) == Mark(q, s)
    decreases |s|
  {
    if s != [] {
      var n := MatchLen(FirstCap, s);
      if n > 0 {
        var rest := ReplaceAll(FirstCap, s[n..]);
        MatchedPiece(s, n, rest);
        PassesAreLocal(Some(s[n - 1]), s[n..]);
        MatchedBlock(q, s[0], s[1..n], s[n..], rest);
      } else {
        PassesAreLocal(Some(s[0]), s[1..]);
        AllCapMarkHead(q, s[0], ReplaceAll(FirstCap, s[1..]));
      }
    }
  }

  lemma SnakeIsMark(s: string)
    ensures ReplaceAll(AllCap, ReplaceAll(FirstCap, s)) == Mark(None, s)
  {
    AllCapIsLocal(None, ReplaceAll(FirstCap, s));
    PassesAreLocal(None, s);
  }

  /** The two greedy passes and the lower-casing are the local rule, on every string. */
  lemma SnakeCaseIsLocal(lower: char -> char, s: string)
    ensures Snake(lower, s) == ToLower(lower, MarkedFrom(s, 0))
  {
    SnakeIsMark(s);
    MarkedFromIsMark(s, 0);
    assert s[0..] == s;
  }

  // ---------- what snake-casing keeps ----------

  function Erase(s: string): string {
    if s == [] then [] else (if s[0] == '_' then [] else [s[0]]) + Erase(s[1..])
  }

  function Capitals(s: string): nat {
    if s == [] then 0 else (if 'A' <= s[0] <= 'Z' then 1 else 0) + Capitals(s[1..])
  }

  lemma {:induction false} EraseConcat(a: string, b: string)
    ensures Erase(a + b) == Erase(a) + Erase(b)
  {
    if a == [] {
      assert a + b == b;
    } else {
      assert (a + b)[1..] == a[1..] + b;
      EraseConcat(a[1..], b);
    }
  }

  lemma {:induction false} EraseLower(lower: char -> char, s: string)
    requires CaseMap(lower)
    ensures Erase(ToLower(lower, s)) == ToLower(lower, Erase(s))
  {
    if s != [] {
      EraseLower(lower, s[1..]);
      assert ToLower(lower, s)[1..] == ToLower(lower, s[1..]);
      ToLowerConcat(lower, if s[0] == '_' then [] else [s[0]], Erase(s[1..]));
    }
  }

  lemma {:induction false} MarkInserts(q: Option<char>, s: string)
    ensures Erase(Mark(q, s)) == Erase(s)
    ensures |s| <= |Mark(q, s)| <= |s| + Capitals(s)
    decreases |s|
  {
    if s != [] {
      var head := if Break(q, s) then "_" else "";
      MarkInserts(Some(s[0]), s[1..]);
      EraseConcat(head + [s[0]], Mark(Some(s[0]), s[1..]));
      EraseConcat(head, [s[0]]);
    }
  }

  /** Snake-casing only inserts underscores, at most one per capital. */
  lemma SnakeCaseInserts(lower: char -> char, s: string)
    requires CaseMap(lower)
    ensures Erase(Snake(lower, s)) == ToLower(lower, Erase(s))
    ensures |s| <= |Snake(lower, s)| <= |s| + Capitals(s)
  {
    SnakeIsMark(s);
    MarkInserts(None, s);
    EraseLower(lower, Mark(None, s));
  }

  lemma {:induction false} MarkKeepsCharacters(q: Option<char>, s: string)
    ensures forall c :: c in s ==> c in Mark(q, s)
    ensures forall c :: c in Mark(q, s) ==> c in s || c == '_'
    decreases |s|
  {
    if s != [] {
      MarkKeepsCharacters(Some(s[0]), s[1..]);
      assert s == [s[0]] + s[1..];
    }
  }

  /** A second application changes nothing exactly when lower-casing the characters again changes none. */
  lemma SnakeCaseIdempotent(lower: char -> char, s: string)
    requires CaseMap(lower)
    ensures Snake(lower, Snake(lower, s)) == Snake(lower, s)
       <==> forall c :: c in s ==> lower(lower(c)) == lower(c)
  {
    var t := ToLower(lower, Mark(None, s));
    SnakeIsMark(s);
    SnakeIsMark(t);
    MarkNoCapitals(None, t);
    LowerTwice(lower, s);
  }

  lemma LowerTwice(lower: char -> char, s: string)
    requires CaseMap(lower)
    ensures var t := ToLower(lower, Mark(None, s));
            ToLower(lower, t) == t <==> forall c :: c in s ==> lower(lower(c)) == lower(c)
  {
    var m := Mark(None, s);
    var t := ToLower(lower, m);
    MarkKeepsCharacters(None, s);
    if ToLower(lower, t) == t {
      forall c | c in s ensures lower(lower(c)) == lower(c) {
        var i :| 0 <= i < |m| && m[i] == c;
        assert ToLower(lower, t)[i] == t[i];
      }
    }
  }

  lemma SnakeCaseIdempotentOnAscii(lower: char -> char, s: string)
    requires CaseMap(lower)
    requires forall c :: c in s ==> c < '\U{80}'
    ensures Snake(lower, Snake(lower, s)) == Snake(lower, s)
  {
    SnakeCaseIdempotent(lower, s);
  }

  /** A suffix such as " desc" is left alone, and leaves alone what stands before it. */
  lemma SnakeCaseSuffix(lower: char -> char, f: string, suffix: string)
    requires CaseMap(lower)
    requires |suffix| > 0 && suffix[0] == ' '
    requires forall c :: c in suffix ==> c < '\U{80}' && !('A' <= c <= 'Z')
    ensures Snake(lower, f + suffix) == Snake(lower, f) + suffix
  {
    hide ReplaceAll, Mark, ToLower;
    SnakeIsMark(f + suffix);
    SnakeIsMark(f);
    MarkConcat(None, f, suffix);
    MarkNoCapitals(LastOf(None, f), suffix);
    ToLowerConcat(lower, Mark(None, f), suffix);
    ToLowerFixed(lower, suffix);
  }

  // ---------- field by field, or the whole text at once ----------

  function SnakeEach(lower: char -> char, parts: seq<string>): (r: seq<string>)
    ensures |r| == |parts|
    ensures forall i :: 0 <= i < |parts| ==> r[i] == Snake(lower, parts[i])
  {
    seq(|parts|, i requires 0 <= i < |parts| => Snake(lower, parts[i]))
  }

  /** Split on commas, snake-case each piece, join again. */
  function SnakeFields(lower: char -> char, s: string): string {
    Join(SnakeEach(lower, Split(s, ",")), ",")
  }

  predicate CapitalisedWord(s: string) {
    |s| >= 2 && 'A' <= s[0] <= 'Z' && 'a' <= s[1] <= 'z'
  }

  ghost predicate CommaThenWord(s: string) {
    exists i :: 0 <= i < |s| && s[i] == ',' && CapitalisedWord(s[i + 1..])
  }

  lemma MarkAfterComma(lower: char -> char, b: string)
    requires CaseMap(lower)
    ensures ToLower(lower, Mark(Some(','), b))
         == (if CapitalisedWord(b) then "_" else "") + ToLower(lower, Mark(None, b))
  {
  }

  lemma CommaThenWordCons(a: string, b: string)
    requires ',' !in a
    ensures CommaThenWord(a + "," + b) <==> CapitalisedWord(b) || CommaThenWord(b)
  {
    var s := a + "," + b;
    assert s[|a|] == ',' && s[|a| + 1..] == b;
    if CommaThenWord(s) {
      var i :| 0 <= i < |s| && s[i] == ',' && CapitalisedWord(s[i + 1..]);
      if i > |a| {
        assert b[i - |a| - 1] == ',' && b[i - |a|..] == s[i + 1..];
      } else {
        assert i == |a| by {
          assert forall k :: 0 <= k < |a| ==> s[k] == a[k];
        }
      }
    }
    if CommaThenWord(b) {
      var i :| 0 <= i < |b| && b[i] == ',' && CapitalisedWord(b[i + 1..]);
      assert s[|a| + 1 + i] == ',' && s[|a| + 1 + i + 1..] == b[i + 1..];
    }
  }

  ghost predicate FieldsVersusWhole(lower: char -> char, s: string) {
    && (!CommaThenWord(s) ==> SnakeFields(lower, s) == Snake(lower, s))
    && |SnakeFields(lower, s)| <= |Snake(lower, s)|
    && (CommaThenWord(s) ==> |SnakeFields(lower, s)| < |Snake(lower, s)|)
  }

  lemma FieldsVersusWholeCons(lower: char -> char, a: string, b: string)
    requires CaseMap(lower)
    requires ',' !in a && FieldsVersusWhole(lower, b)
    ensures FieldsVersusWhole(lower, a + "," + b)
  {
    hide SnakeFields, Snake, CommaThenWord, CapitalisedWord;
    SnakeFieldsCons(lower, a, b);
    CommaThenWordCons(a, b);
    WholeCons(lower, a, b);
  }

  lemma FieldsVersusWholeNil(lower: char -> char, a: string)
    requires ',' !in a
    ensures FieldsVersusWhole(lower, a)
  {
  }

  /** The two ways differ by exactly the underscores put behind commas. */
  lemma {:induction false} FieldsAgainstWhole(lower: char -> char, s: string)
    requires CaseMap(lower)
    ensures FieldsVersusWhole(lower, s)
    decreases |s|
  {
    if ',' in s {
      var a, b := CutAtChar(s, ',');
      FieldsAgainstWhole(lower, b);
      FieldsVersusWholeCons(lower, a, b);
    } else {
      FieldsVersusWholeNil(lower, s);
    }
  }

  lemma SnakeFieldsCons(lower: char -> char, a: string, b: string)
    requires ',' !in a
    ensures SnakeFields(lower, a + "," + b) == Snake(lower, a) + "," + SnakeFields(lower, b)
  {
    var parts := Split(b, ",");
    SplitAtChar(a, ',', b);
    assert SnakeEach(lower, [a] + parts) == [Snake(lower, a)] + SnakeEach(lower, parts);
    JoinCons(Snake(lower, a), SnakeEach(lower, parts), ",");
  }

  lemma MarkComma(a: string, b: string)
    ensures Mark(None, a + "," + b) == Mark(None, a) + ("," + Mark(Some(','), b))
  {
    assert a + "," + b == a + ("," + b);
    MarkConcat(None, a, "," + b);
    assert ("," + b)[1..] == b;
  }

  lemma WholeCons(lower: char -> char, a: string, b: string)
    requires CaseMap(lower)
    ensures Snake(lower, a + "," + b)
         == Snake(lower, a) + "," + (if CapitalisedWord(b) then "_" else "") + Snake(lower, b)
  {
    hide ReplaceAll, Mark, ToLower, CaseMap, CapitalisedWord;
    var rest := Mark(Some(','), b);
    calc {
      Snake(lower, a + "," + b);
      { SnakeIsMark(a + "," + b); MarkComma(a, b); }
      ToLower(lower, Mark(None, a) + ("," + rest));
      { ToLowerConcat(lower, Mark(None, a), "," + rest); SnakeIsMark(a); }
      Snake(lower, a) + ToLower(lower, "," + rest);
      { ToLowerConcat(lower, ",", rest); ToLowerFixed(lower, ","); }
      Snake(lower, a) + ("," + ToLower(lower, rest));
      { MarkAfterComma(lower, b); SnakeIsMark(b); }
      Snake(lower, a) + "," + (if CapitalisedWord(b) then "_" else "") + Snake(lower, b);
    }
  }

  /** Field by field equals all at once exactly when no comma stands right before a capitalised word. */
  lemma SnakeFieldsIffWhole(lower: char -> char, s: string)
    requires CaseMap(lower)
    ensures SnakeFields(lower, s) == Snake(lower, s) <==> !CommaThenWord(s)
  {
    FieldsAgainstWhole(lower, s);
  }
}
