/**
 The string operations the program takes from its language's library: leftmost search,
 splitting on a separator, joining, and trimming of white space. Each is given by its
 simple definition; the lemmas say what the definitions mean.
 */
module Text {

  datatype Option<+T> = None | Some(value: T)

  // ---------- slices ----------

  lemma SliceOfSlice<T>(s: seq<T>, lo: nat, hi: nat, i: nat, n: nat)
    requires lo <= hi <= |s| && i + n <= hi - lo
    ensures s[lo..hi][i..i + n] == s[lo + i..lo + i + n]
  {
    var a, b := s[lo..hi][i..i + n], s[lo + i..lo + i + n];
    assert |a| == |b| && forall k :: 0 <= k < n ==> a[k] == s[lo + i + k] == b[k];
  }

  lemma CutInTwo<T>(s: seq<T>, i: nat)
    requires i <= |s|
    ensures s == s[..i] + s[i..]
  {
  }

  lemma CutInThree<T>(s: seq<T>, i: nat, n: nat)
    requires i + n <= |s|
    ensures s == s[..i] + s[i..i + n] + s[i + n..]
  {
  }

  // ---------- leftmost search ----------

  predicate OccursAt<T(==)>(s: seq<T>, sub: seq<T>, i: int) {
    0 <= i && i + |sub| <= |s| && s[i..i + |sub|] == sub
  }

  ghost predicate Occurs<T>(s: seq<T>, sub: seq<T>) {
    exists i :: OccursAt(s, sub, i)
  }

  function IndexFrom<T(==)>(s: seq<T>, sub: seq<T>, from: nat): (r: int)
    requires from <= |s|
    ensures r == -1 || from <= r
    ensures r >= 0 ==> OccursAt(s, sub, r)
    ensures forall k :: from <= k && (r == -1 || k < r) ==> !OccursAt(s, sub, k)
    decreases |s| - from
  {
    if from + |sub| > |s| then -1
    else if s[from..from + |sub|] == sub then from
    else IndexFrom(s, sub, from + 1)
  }

  /** The position of the leftmost occurrence of sub in s, or -1 when there is none. */
  function Index<T(==)>(s: seq<T>, sub: seq<T>): (r: int)
    ensures -1 <= r
    ensures r >= 0 <==> Occurs(s, sub)
    ensures r >= 0 ==> OccursAt(s, sub, r)
    ensures forall k :: k < r ==> !OccursAt(s, sub, k)
  {
    var r := IndexFrom(s, sub, 0);
    assert r == -1 ==> forall k :: k >= 0 ==> !OccursAt(s, sub, k);
    r
  }

  /** A position that carries an occurrence and has none before it is the one Index returns. */
  lemma IndexIs<T>(s: seq<T>, sub: seq<T>, i: nat)
    requires OccursAt(s, sub, i)
    requires forall k :: 0 <= k < i ==> !OccursAt(s, sub, k)
    ensures Index(s, sub) == i
  {
  }

  predicate HasPrefix(s: string, p: string) {
    |p| <= |s| && s[..|p|] == p
  }

  // ---------- splitting and joining ----------

  function Join(parts: seq<string>, sep: string): string {
    if |parts| == 0 then ""
    else if |parts| == 1 then parts[0]
    else parts[0] + sep + Join(parts[1..], sep)
  }

  /** Cuts s at successive leftmost occurrences of sep. */
  function Split(s: string, sep: string): (parts: seq<string>)
    requires |sep| > 0
    ensures |parts| >= 1
  {
    var i := Index(s, sep);
    if i < 0 then [s] else [s[..i]] + Split(s[i + |sep|..], sep)
  }

  /** Joining undoes splitting, and no piece contains the separator. */
  lemma {:induction false} SplitParts(s: string, sep: string)
    requires |sep| > 0
    ensures Join(Split(s, sep), sep) == s
    ensures forall p :: p in Split(s, sep) ==> !Occurs(p, sep)
  {
    hide Occurs, Join;
    var i := Index(s, sep);
    if i >= 0 {
      var rest := s[i + |sep|..];
      SplitParts(rest, sep);
      PrefixBeforeIndex(s, sep, i);
      JoinCons(s[..i], Split(rest, sep), sep);
      CutInThree(s, i, |sep|);
    } else {
      JoinOne(s, sep);
    }
  }

  lemma JoinOne(s: string, sep: string)
    ensures Join([s], sep) == s
  {
  }

  lemma PrefixBeforeIndex<T>(s: seq<T>, sep: seq<T>, i: nat)
    requires i <= |s| && |sep| > 0
    requires forall k :: k < i ==> !OccursAt(s, sep, k)
    ensures !Occurs(s[..i], sep)
  {
    if Occurs(s[..i], sep) {
      var k :| OccursAt(s[..i], sep, k);
      SliceOfSlice(s, 0, i, k, |sep|);
      assert OccursAt(s, sep, k);
    }
  }

  lemma JoinCons(head: string, tail: seq<string>, sep: string)
    requires |tail| > 0
    ensures Join([head] + tail, sep) == head + sep + Join(tail, sep)
  {
  }

  lemma OccursChar(s: string, c: char)
    ensures Occurs(s, [c]) <==> c in s
  {
    if Occurs(s, [c]) {
      var i :| OccursAt(s, [c], i);
      assert s[i..i + 1][0] == c;
    }
    if c in s {
      var i :| 0 <= i < |s| && s[i] == c;
      assert s[i..i + 1] == [c];
      assert OccursAt(s, [c], i);
    }
  }

  /** Splitting on a character takes off the text before its first occurrence. */
  lemma SplitAtChar(a: string, c: char, b: string)
    requires c !in a
    ensures Split(a + [c] + b, [c]) == [a] + Split(b, [c])
  {
    var s := a + [c] + b;
    assert s[|a|..|a| + 1] == [c];
    forall k | 0 <= k < |a| ensures !OccursAt(s, [c], k) {
      assert s[k..k + 1][0] == a[k];
    }
    IndexIs(s, [c], |a|);
    assert s[..|a|] == a && s[|a| + 1..] == b;
  }

  lemma CutAtChar(s: string, c: char) returns (a: string, b: string)
    requires c in s
    ensures s == a + [c] + b && c !in a
  {
    var i := Index(s, [c]);
    OccursChar(s, c);
    a, b := s[..i], s[i + 1..];
    PrefixBeforeIndex(s, [c], i);
    OccursChar(a, c);
    assert s[i..i + 1] == [c];
  }

  lemma SplitWithoutChar(a: string, c: char)
    requires c !in a
    ensures Split(a, [c]) == [a]
  {
    OccursChar(a, c);
  }

  lemma SplitPiecesLackChar(s: string, c: char)
    ensures forall p :: p in Split(s, [c]) ==> c !in p
  {
    SplitParts(s, [c]);
    forall p | p in Split(s, [c]) ensures c !in p {
      OccursChar(p, c);
    }
  }

  /** Splitting undoes joining: pieces that lack the separator come back unchanged. */
  lemma {:induction false} SplitJoin(parts: seq<string>, c: char)
    requires |parts| >= 1
    requires forall p :: p in parts ==> c !in p
    ensures Split(Join(parts, [c]), [c]) == parts
  {
    if |parts| == 1 {
      SplitWithoutChar(parts[0], c);
    } else {
      SplitJoin(parts[1..], c);
      SplitAtChar(parts[0], c, Join(parts[1..], [c]));
      assert parts == [parts[0]] + parts[1..];
    }
  }

  // ---------- white space ----------

  /** The characters with Unicode's White_Space property. */
  predicate IsSpace(c: char) {
    '\t' <= c <= '\r' || c == ' ' || c == '\U{85}' || c == '\U{A0}' || c == '\U{1680}' ||
    '\U{2000}' <= c <= '\U{200A}' || c == '\U{2028}' || c == '\U{2029}' || c == '\U{202F}' ||
    c == '\U{205F}' || c == '\U{3000}'
  }

  /** The same characters, listed by code point. */
  const WHITE_SPACE: set<int> := {
    0x09, 0x0A, 0x0B, 0x0C, 0x0D, 0x20, 0x85, 0xA0, 0x1680,
    0x2000, 0x2001, 0x2002, 0x2003, 0x2004, 0x2005, 0x2006, 0x2007, 0x2008, 0x2009, 0x200A,
    0x2028, 0x2029, 0x202F, 0x205F, 0x3000
  }

  lemma WhiteSpaceListed(c: char)
    ensures IsSpace(c) <==> c as int in WHITE_SPACE
  {
  }

  function TrimLeft(s: string): (t: string)
    ensures |t| <= |s| && t == s[|s| - |t|..]
    ensures forall k :: 0 <= k < |s| - |t| ==> IsSpace(s[k])
    ensures t == [] || !IsSpace(t[0])
  {
    if |s| > 0 && IsSpace(s[0]) then TrimLeft(s[1..]) else s
  }

  function TrimRight(s: string): (t: string)
    ensures |t| <= |s| && t == s[..|t|]
    ensures forall k :: |t| <= k < |s| ==> IsSpace(s[k])
    ensures t == [] || !IsSpace(t[|t| - 1])
  {
    if |s| > 0 && IsSpace(s[|s| - 1]) then TrimRight(s[..|s| - 1]) else s
  }

  function TrimSpace(s: string): string {
    TrimRight(TrimLeft(s))
  }

  predicate IsTrimmed(s: string) {
    |s| == 0 || (!IsSpace(s[0]) && !IsSpace(s[|s| - 1]))
  }

  /** TrimSpace takes white space, and nothing else, off the two ends, and leaves none there. */
  lemma TrimSpaceCuts(s: string) returns (i: nat)
    ensures var t := TrimSpace(s);
            && IsTrimmed(t) && i + |t| <= |s| && s[i..i + |t|] == t
            && (t != "" ==> t[0] as int !in WHITE_SPACE && t[|t| - 1] as int !in WHITE_SPACE)
    ensures forall k :: 0 <= k < |s| && !(i <= k < i + |TrimSpace(s)|) ==> s[k] as int in WHITE_SPACE
  {
    hide IsSpace;
    i := |s| - |TrimLeft(s)|;
    forall k | 0 <= k < |s| ensures IsSpace(s[k]) <==> s[k] as int in WHITE_SPACE {
      WhiteSpaceListed(s[k]);
    }
  }

  lemma TrimTrimmed(s: string)
    requires IsTrimmed(s)
    ensures TrimSpace(s) == s
  {
  }

  lemma SliceKeepsAbsence(s: string, lo: nat, hi: nat, sub: string)
    requires lo <= hi <= |s|
    requires !Occurs(s, sub)
    ensures !Occurs(s[lo..hi], sub)
  {
    forall i ensures !OccursAt(s[lo..hi], sub, i) {
      assert !OccursAt(s, sub, lo + i);
      if 0 <= i && i + |sub| <= hi - lo {
        SliceOfSlice(s, lo, hi, i, |sub|);
      }
    }
  }

  /** Trimming cannot create an occurrence. */
  lemma TrimKeepsAbsence(s: string, sub: string)
    requires !Occurs(s, sub)
    ensures !Occurs(TrimSpace(s), sub)
  {
    var n := TrimSpaceCuts(s);
    SliceKeepsAbsence(s, n, n + |TrimSpace(s)|, sub);
  }
}
