/**
 utils/helper.go: the string normalisers for dates, RPC errors and account handles, and the
 random password generator.
 */
module Normalise {
  import opened Text

  // ---------- dates ----------

  function Pad(part: string): string {
    if |part| == 1 then "0" + part else part
  }

  function DateFormat(date: string): string {
    var parts := Split(date, "/");
    if |parts| < 3 then date
    else Join(parts[1 := Pad(parts[1])][2 := Pad(parts[2])], "/")
  }

  method HandlerDateFormat(date: string) returns (r: string)
    ensures r == DateFormat(date) && DateFormat(r) == r
    ensures var p, t := Split(date, "/"), Split(r, "/");
            if |p| < 3 then r == date
            else |t| == |p| && forall i :: 0 <= i < |p| ==>
                   t[i] == if 1 <= i <= 2 && |p[i]| == 1 then "0" + p[i] else p[i]
  {
    DateFormatIdempotent(date);
    DateFormatPieces(date);
    hide Split, Join;
    var parts := Split(date, "/");
    var dateArr := new string[|parts|](i requires 0 <= i < |parts| => parts[i]);
    if dateArr.Length < 3 {
      return date;
    }
    if |dateArr[1]| == 1 {
      dateArr[1] := "0" + dateArr[1];
    }
    if |dateArr[2]| == 1 {
      dateArr[2] := "0" + dateArr[2];
    }
    assert dateArr[..] == parts[1 := Pad(parts[1])][2 := Pad(parts[2])];
    r := Join(dateArr[..], "/");
  }

  lemma DateFormatPieces(date: string)
    ensures var p := Split(date, "/");
            |p| >= 3 ==> Split(DateFormat(date), "/") == p[1 := Pad(p[1])][2 := Pad(p[2])]
  {
    hide Split, Join;
    var parts := Split(date, "/");
    SplitPiecesLackChar(date, '/');
    if |parts| >= 3 {
      var padded := parts[1 := Pad(parts[1])][2 := Pad(parts[2])];
      forall p | p in padded ensures '/' !in p {
        var i :| 0 <= i < |padded| && padded[i] == p;
        assert parts[i] in parts;
      }
      SplitJoin(padded, '/');
    }
  }

  /** Formatting a formatted date changes nothing, whatever the text. */
  lemma DateFormatIdempotent(date: string)
    ensures DateFormat(DateFormat(date)) == DateFormat(date)
  {
    hide Split, Join;
    var parts := Split(date, "/");
    DateFormatPieces(date);
    if |parts| >= 3 {
      var padded := parts[1 := Pad(parts[1])][2 := Pad(parts[2])];
      assert padded[1 := Pad(padded[1])][2 := Pad(padded[2])] == padded;
    }
  }

  predicate IsDigits(s: string) {
    forall i :: 0 <= i < |s| ==> '0' <= s[i] <= '9'
  }

  function Number(s: string): nat
    requires IsDigits(s)
  {
    if s == [] then 0
    else
      Number(s[..|s| - 1]) * 10 + (s[|s| - 1] as int - '0' as int)
  }

  /** A date text year/month/day with a four-digit year and one or two digits for month and day. */
  datatype DateText = DateText(year: string, month: string, day: string) {
    predicate Valid() {
      && IsDigits(year) && IsDigits(month) && IsDigits(day)
      && |year| == 4 && 1 <= |month| <= 2 && 1 <= |day| <= 2
    }

    function Text(): string {
      year + "/" + (month + "/" + day)
    }
  }

  datatype Date = Date(year: nat, month: nat, day: nat)

  function Denotes(t: DateText): Date
    requires t.Valid()
  {
    Date(Number(t.year), Number(t.month), Number(t.day))
  }

  predicate Earlier(a: Date, b: Date) {
    a.year < b.year || (a.year == b.year && (a.month < b.month || (a.month == b.month && a.day < b.day)))
  }

  /** Order of strings by their characters, from the left. */
  predicate LexLess(a: string, b: string) {
    if b == [] then false
    else if a == [] then true
    else if a[0] != b[0] then a[0] < b[0]
    else LexLess(a[1..], b[1..])
  }

  lemma {:induction false} LexConcat(a: string, b: string, x: string, y: string)
    requires |a| == |b|
    ensures LexLess(a + x, b + y) <==> LexLess(a, b) || (a == b && LexLess(x, y))
  {
    if a == [] {
      assert a + x == x && b + y == y;
    } else {
      LexConcat(a[1..], b[1..], x, y);
      assert (a + x)[1..] == a[1..] + x && (b + y)[1..] == b[1..] + y;
      assert a == [a[0]] + a[1..] && b == [b[0]] + b[1..];
    }
  }

  lemma NumberSnoc(s: string, c: char)
    requires IsDigits(s) && '0' <= c <= '9'
    ensures IsDigits(s + [c]) && Number(s + [c]) == Number(s) * 10 + (c as int - '0' as int)
  {
  }

  /** On digit strings of one length, the order of strings is the order of numbers. */
  lemma {:induction false} NumberOrder(a: string, b: string)
    requires IsDigits(a) && IsDigits(b) && |a| == |b|
    ensures LexLess(a, b) <==> Number(a) < Number(b)
    ensures a == b <==> Number(a) == Number(b)
    decreases |a|
  {
    if a != [] {
      var n := |a| - 1;
      NumberOrder(a[..n], b[..n]);
      NumberOrderSnoc(a[..n], b[..n], a[n], b[n]);
      hide LexLess, Number;
      assert a == a[..n] + [a[n]] && b == b[..n] + [b[n]];
    }
  }

  lemma NumberOrderSnoc(p: string, q: string, c: char, d: char)
    requires IsDigits(p) && IsDigits(q) && |p| == |q| && '0' <= c <= '9' && '0' <= d <= '9'
    requires LexLess(p, q) <==> Number(p) < Number(q)
    requires p == q <==> Number(p) == Number(q)
    ensures IsDigits(p + [c]) && IsDigits(q + [d])
    ensures LexLess(p + [c], q + [d]) <==> Number(p + [c]) < Number(q + [d])
    ensures p + [c] == q + [d] <==> Number(p + [c]) == Number(q + [d])
  {
    assert LexLess([c], [d]) <==> c < d;
    hide LexLess, Number, IsDigits;
    NumberSnoc(p, c);
    NumberSnoc(q, d);
    LexConcat(p, q, [c], [d]);
    ConcatEqual(p, q, [c], [d]);
    assert [c] == [d] <==> c == d;
  }

  lemma NumberPad(s: string)
    requires IsDigits(s) && 1 <= |s| <= 2
    ensures IsDigits(Pad(s)) && |Pad(s)| == 2 && Number(Pad(s)) == Number(s)
  {
  }

  lemma DateFormatOfText(t: DateText)
    requires t.Valid()
    ensures DateFormat(t.Text()) == t.year + ("/" + (Pad(t.month) + ("/" + Pad(t.day))))
  {
    hide Split, Join;
    var y, m, d := t.year, t.month, t.day;
    assert t.Text() == y + "/" + (m + "/" + d);
    SplitAtChar(y, '/', m + "/" + d);
    SplitAtChar(m, '/', d);
    SplitWithoutChar(d, '/');
    var parts := [y, m, d];
    assert Split(t.Text(), "/") == parts;
    assert parts[1 := Pad(m)][2 := Pad(d)] == [y] + ([Pad(m)] + [Pad(d)]);
    JoinCons(y, [Pad(m)] + [Pad(d)], "/");
    JoinCons(Pad(m), [Pad(d)], "/");
    JoinOne(Pad(d), "/");
  }

  /** Formatted dates are equal exactly when the dates are, and sort as strings in the order of time. */
  lemma DateFormatOrder(s: DateText, t: DateText)
    requires s.Valid() && t.Valid()
    ensures DateFormat(s.Text()) == DateFormat(t.Text()) <==> Denotes(s) == Denotes(t)
    ensures LexLess(DateFormat(s.Text()), DateFormat(t.Text())) <==> Earlier(Denotes(s), Denotes(t))
  {
    DateFormatOfText(s);
    DateFormatOfText(t);
    NumberPad(s.month);
    NumberPad(s.day);
    NumberPad(t.month);
    NumberPad(t.day);
    NumberOrder(s.year, t.year);
    NumberOrder(Pad(s.month), Pad(t.month));
    NumberOrder(Pad(s.day), Pad(t.day));
    hide DateFormat, Number, Pad, IsDigits;
    FieldOrder(s.year, t.year, Pad(s.month), Pad(t.month), Pad(s.day), Pad(t.day));
  }

  lemma FieldOrder(y: string, y': string, m: string, m': string, d: string, d': string)
    requires |y| == |y'| && |m| == |m'| && |d| == |d'|
    ensures var a, b := y + ("/" + (m + ("/" + d))), y' + ("/" + (m' + ("/" + d')));
            && (a == b <==> y == y' && m == m' && d == d')
            && (LexLess(a, b) <==> LexLess(y, y') || (y == y' && (LexLess(m, m') || (m == m' && LexLess(d, d')))))
  {
    hide LexLess;
    SlashOrder(y, y', m + ("/" + d), m' + ("/" + d'));
    SlashOrder(m, m', d, d');
  }

  lemma SlashOrder(a: string, b: string, x: string, y: string)
    requires |a| == |b|
    ensures a + ("/" + x) == b + ("/" + y) <==> a == b && x == y
    ensures LexLess(a + ("/" + x), b + ("/" + y)) <==> LexLess(a, b) || (a == b && LexLess(x, y))
  {
    LexIrreflexive("/");
    hide LexLess;
    LexConcat(a, b, "/" + x, "/" + y);
    LexConcat("/", "/", x, y);
    ConcatEqual(a, b, "/" + x, "/" + y);
    ConcatEqual("/", "/", x, y);
  }

  lemma ConcatEqual(a: string, b: string, x: string, y: string)
    requires |a| == |b|
    ensures a + x == b + y <==> a == b && x == y
  {
    assert (a + x)[..|a|] == a && (b + y)[..|b|] == b;
    assert (a + x)[|a|..] == x && (b + y)[|b|..] == y;
  }

  lemma LexIrreflexive(a: string)
    ensures !LexLess(a, a)
  {
  }

  // ---------- RPC errors ----------

  const RPC_PREFIX := "rpc error:"
  const DESC := "desc ="

  /** An error is its text; None is the absence of an error. */
  function HandlerRPCError(err: Option<string>): Option<string> {
    if err.None? then None
    else if HasPrefix(err.value, RPC_PREFIX) then
      var pieces := Split(err.value, DESC);
      if |pieces| < 2 then err else Some(TrimSpace(pieces[1]))
    else err
  }

  lemma SplitWithoutSep(s: string, sep: string)
    requires |sep| > 0 && !Occurs(s, sep)
    ensures Split(s, sep) == [s]
  {
  }

  lemma FirstPiece(s: string, sep: string)
    requires |sep| > 0
    ensures Split(s, sep)[0] == if Index(s, sep) < 0 then s else s[..Index(s, sep)]
  {
  }

  /**
   What becomes of any error text: without the prefix or without a marker it stays as it is;
   otherwise what stands between the first marker and the next, or the end, is left, trimmed.
   */
  lemma HandlerRPCErrorByMarker(s: string)
    ensures HandlerRPCError(None) == None
    ensures !("rpc error:" <= s) || !Occurs(s, "desc =") ==> HandlerRPCError(Some(s)) == Some(s)
    ensures "rpc error:" <= s && Occurs(s, "desc =") ==>
              var t := s[Index(s, "desc =") + 6..];
              var j := Index(t, "desc =");
              HandlerRPCError(Some(s)) == Some(TrimSpace(if j < 0 then t else t[..j]))
  {
    hide TrimSpace;
    assert HasPrefix(s, RPC_PREFIX) <==> "rpc error:" <= s;
    if Occurs(s, DESC) {
      var t := s[Index(s, DESC) + 6..];
      FirstPiece(t, DESC);
      assert Split(s, DESC) == [s[..Index(s, DESC)]] + Split(t, DESC);
    }
  }

  /** A second application changes nothing: a piece of the split holds no separator, trimmed or not. */
  lemma HandlerRPCErrorIdempotent(err: Option<string>)
    ensures HandlerRPCError(HandlerRPCError(err)) == HandlerRPCError(err)
  {
    if err.Some? {
      hide Split, TrimSpace, HasPrefix;
      var pieces := Split(err.value, DESC);
      SplitParts(err.value, DESC);
      if |pieces| >= 2 {
        assert pieces[1] in pieces;
        TrimKeepsAbsence(pieces[1], DESC);
        SplitWithoutSep(TrimSpace(pieces[1]), DESC);
      }
    }
  }

  const CODE := "rpc error: code = "

  /** In the text of a status error, the description marker first stands where the description starts. */
  lemma MarkerPosition(code: string, m: string)
    requires !Occurs(code, DESC)
    ensures Index(CODE + code + " desc =" + m, DESC) == |CODE| + |code| + 1
  {
    var s := CODE + code + " desc =" + m;
    var q := |CODE| + |code|;
    assert s[q..q + 7] == " desc =";
    assert s[q + 1..q + 7] == DESC;
    forall k | 0 <= k < q + 1 ensures !OccursAt(s, DESC, k) {
      if OccursAt(s, DESC, k) {
        MarkerNotBefore(s, code, q, k);
      }
    }
    IndexIs(s, DESC, q + 1);
  }

  lemma MarkerNotBefore(s: string, code: string, q: nat, k: nat)
    requires q == |CODE| + |code| && q + 7 <= |s| && k <= q && k + 6 <= |s|
    requires s[..|CODE|] == CODE && s[|CODE|..q] == code && s[q] == ' ' && s[q + 1] == 'd'
    requires !Occurs(code, DESC)
    ensures !OccursAt(s, DESC, k)
  {
    var w := s[k..k + 6];
    assert w[0] == s[k] && w[1] == s[k + 1] && w[2] == s[k + 2] && w[5] == s[k + 5];
    assert DESC == ['d', 'e', 's', 'c', ' ', '='];
    if k < |CODE| {
      assert forall i :: 0 <= i < |CODE| ==> s[i] == s[..|CODE|][i] == CODE[i];
      assert s[k] == CODE[k];
      assert k == 13 ==> s[15] == CODE[15];
    } else if k + 6 <= q {
      assert !OccursAt(code, DESC, k - |CODE|);
      SliceOfSlice(s, |CODE|, q, k - |CODE|, 6);
    } else {
      assert forall i :: 0 <= i < 6 ==> w[i] == s[k + i];
      if k + 5 == q {
        assert w[5] == ' ';
      } else {
        assert w[q + 1 - k] == 'd' && q + 1 - k >= 1;
      }
    }
  }

  lemma IndexBehindSpace(m: string)
    ensures Index(" " + m, DESC) == if Index(m, DESC) < 0 then -1 else Index(m, DESC) + 1
  {
    var i := Index(m, DESC);
    if i < 0 {
      LeadingSpaceKeepsAbsence(m);
    } else {
      assert (" " + m)[i + 1..i + 7] == m[i..i + 6];
      forall k | 0 <= k < i + 1 ensures !OccursAt(" " + m, DESC, k) {
        if k == 0 {
          assert |m| >= 5 ==> (" " + m)[0..6][0] == ' ';
        } else {
          assert !OccursAt(m, DESC, k - 1);
          assert (" " + m)[k..k + 6] == m[k - 1..k + 5];
        }
      }
      IndexIs(" " + m, DESC, i + 1);
    }
  }

  /** Where the text behind the first marker of a status error starts. */
  lemma StatusText(code: string, m: string) returns (s: string, i: nat)
    requires !Occurs(code, DESC)
    ensures s == "rpc error: code = " + code + " desc = " + m && "rpc error:" <= s
    ensures Occurs(s, DESC) && Index(s, DESC) == i && i + 6 <= |s| && s[i + 6..] == " " + m
  {
    s := CODE + code + " desc =" + (" " + m);
    i := |CODE| + |code| + 1;
    MarkerPosition(code, " " + m);
    hide Index, Occurs, OccursAt;
    assert " desc = " == " desc =" + " ";
    assert s[..10] == CODE[..10];
  }

  lemma PieceBehindSpace(m: string)
    ensures var j, k := Index(m, DESC), Index(" " + m, DESC);
            TrimSpace(if k < 0 then " " + m else (" " + m)[..k]) == TrimSpace(if j < 0 then m else m[..j])
  {
    IndexBehindSpace(m);
    var j := Index(m, DESC);
    hide Index;
    var piece := if j < 0 then m else m[..j];
    assert j >= 0 ==> (" " + m)[..j + 1] == " " + piece;
    TrimLeftStep(piece);
  }

  /** The description of a status error, cut before the first marker in it, is the message. */
  lemma HandlerRPCErrorStatus(code: string, m: string)
    requires !Occurs(code, "desc =")
    ensures var j := Index(m, "desc =");
            HandlerRPCError(Some("rpc error: code = " + code + " desc = " + m))
              == Some(TrimSpace(if j < 0 then m else m[..j]))
  {
    hide Index, Occurs, TrimSpace, HandlerRPCError;
    var s, i := StatusText(code, m);
    StatusPiece(s, i, m);
  }

  lemma StatusPiece(s: string, i: nat, m: string)
    requires "rpc error:" <= s && Occurs(s, DESC) && Index(s, DESC) == i && i + 6 <= |s| && s[i + 6..] == " " + m
    ensures var j := Index(m, DESC);
            HandlerRPCError(Some(s)) == Some(TrimSpace(if j < 0 then m else m[..j]))
  {
    hide Index, Occurs, TrimSpace, HandlerRPCError;
    HandlerRPCErrorByMarker(s);
    PieceBehindSpace(m);
  }

  /** The message comes back unchanged exactly when it is trimmed and free of the marker itself. */
  lemma HandlerRPCErrorMessage(code: string, m: string)
    requires !Occurs(code, DESC)
    ensures HandlerRPCError(Some(CODE + code + " desc = " + m)) == Some(m) <==> IsTrimmed(m) && !Occurs(m, DESC)
  {
    var s := CODE + code + " desc =" + (" " + m);
    assert CODE + code + " desc = " + m == s by { assert " desc = " == " desc =" + " "; }
    assert HasPrefix(s, RPC_PREFIX) by { assert s[..10] == CODE[..10]; }
    MarkerPosition(code, " " + m);
    assert s[|CODE| + |code| + 7..] == " " + m;
    var rest := Split(" " + m, DESC);
    assert Split(s, DESC)[1] == rest[0];
    assert |Split(s, DESC)| >= 2;
    MessagePiece(m);
  }

  lemma MessagePiece(m: string)
    ensures TrimSpace(Split(" " + m, DESC)[0]) == m <==> IsTrimmed(m) && !Occurs(m, DESC)
  {
    hide Split, Occurs, TrimSpace;
    var piece := Split(" " + m, DESC)[0];
    SplitParts(" " + m, DESC);
    TrimKeepsAbsence(piece, DESC);
    var _ := TrimSpaceCuts(piece);
    if IsTrimmed(m) && !Occurs(m, DESC) {
      LeadingSpaceKeepsAbsence(m);
      SplitWithoutSep(" " + m, DESC);
      TrimLeadingSpace(m);
    }
  }

  lemma LeadingSpaceKeepsAbsence(m: string)
    requires !Occurs(m, DESC)
    ensures !Occurs(" " + m, DESC)
  {
    forall k ensures !OccursAt(" " + m, DESC, k) {
      assert !OccursAt(m, DESC, k - 1);
      if 1 <= k && k + 6 <= |m| + 1 {
        assert (" " + m)[k..k + 6] == m[k - 1..k + 5];
      } else if k == 0 && 6 <= |m| + 1 {
        assert (" " + m)[0..6][0] == ' ';
      }
    }
  }

  lemma TrimLeftStep(m: string)
    ensures TrimLeft(" " + m) == TrimLeft(m)
  {
  }

  lemma TrimLeadingSpace(m: string)
    requires IsTrimmed(m)
    ensures TrimSpace(" " + m) == m
  {
    hide TrimLeft, TrimRight;
    TrimLeftStep(m);
    TrimTrimmed(m);
  }

  // ---------- handles ----------

  function ServerName(server: string): string {
    if HasPrefix(server, "http") then
      var parts := Split(server, "//");
      if |parts| > 1 then parts[1] else server
    else server
  }

  function GetHandleFromUsername(server: string, username: string): string {
    username + "." + ServerName(server)
  }

  /** Username, dot, and the server without its scheme: for http servers, what stands between the first // and the next. */
  lemma HandleOfServer(server: string, username: string)
    ensures var i := Index(server, "//");
            GetHandleFromUsername(server, username) == username + "." +
              if !("http" <= server) || i < 0 then server
              else
                var t := server[i + 2..];
                if Index(t, "//") < 0 then t else t[..Index(t, "//")]
  {
    assert HasPrefix(server, "http") <==> "http" <= server;
    if Occurs(server, "//") {
      var i := Index(server, "//");
      FirstPiece(server[i + 2..], "//");
      assert Split(server, "//") == [server[..i]] + Split(server[i + 2..], "//");
    }
  }

  /** For a fixed server, different usernames have different handles. */
  lemma HandleInjective(server: string, u: string, v: string)
    requires GetHandleFromUsername(server, u) == GetHandleFromUsername(server, v)
    ensures u == v
  {
    var h := GetHandleFromUsername(server, u);
    var n := |h| - |ServerName(server)| - 1;
    assert u == h[..n] == v;
  }

  /** Cutting a handle at its first dot gives username and server name back exactly when the username has no dot. */
  lemma HandleCut(server: string, username: string)
    ensures var h := GetHandleFromUsername(server, username);
            var i := Index(h, ".");
            && 0 <= i < |h|
            && (h[..i] == username && h[i + 1..] == ServerName(server) <==> '.' !in username)
  {
    var h := GetHandleFromUsername(server, username);
    var i := Index(h, ".");
    var n := |username|;
    OccursChar(h, '.');
    assert h[n] == '.';
    assert h[i..i + 1] == "." && h[i] == h[i..i + 1][0];
    if '.' !in username {
      assert forall k :: 0 <= k < n ==> h[k] == username[k];
      assert OccursAt(h, ".", n) by { assert h[n..n + 1] == "."; }
      assert i == n;
    } else {
      PrefixBeforeIndex(h, ".", i);
      OccursChar(h[..i], '.');
    }
  }

  lemma SchemeName(scheme: string, h: string)
    requires scheme == "http:" || scheme == "https:"
    ensures ServerName(scheme + "//" + h) == Split(h, "//")[0]
  {
    var s := scheme + "//" + h;
    var n := |scheme|;
    assert s[..4] == "http";
    assert s[n..n + 2] == "//" && s[n + 2..] == h;
    forall k | 0 <= k < n ensures !OccursAt(s, "//", k) {
      assert s[k] == scheme[k];
      assert k + 2 <= |s| && s[k..k + 2][0] == s[k];
    }
    IndexIs(s, "//", n);
    assert Split(s, "//") == [s[..n]] + Split(h, "//");
  }

  /** The scheme never matters, and it may be missing exactly under the stated condition on the host text. */
  lemma HandleIgnoresScheme(h: string, username: string)
    ensures GetHandleFromUsername("http:" + "//" + h, username) == GetHandleFromUsername("https:" + "//" + h, username)
    ensures GetHandleFromUsername("http:" + "//" + h, username) == GetHandleFromUsername(h, username)
       <==> !Occurs(h, "//") || (HasPrefix(h, "http") && Split(h, "//")[0] == Split(h, "//")[1])
  {
    SchemeName("http:", h);
    SchemeName("https:", h);
    var a, b := Split(h, "//")[0], ServerName(h);
    assert username + "." + a == username + "." + b <==> a == b by {
      ConcatEqual(username + ".", username + ".", a, b);
    }
    if Occurs(h, "//") {
      assert |Split(h, "//")| >= 2;
      assert a != h;
    } else {
      SplitWithoutSep(h, "//");
    }
  }

  // ---------- random passwords ----------

  const LETTERS := "abcdefghijklmnopqrstuvwxyz" + "ABCDEFGHIJKLMNOPQRSTUVWXYZ" + "0123456789"

  predicate IsRandSeq(s: string, n: nat) {
    |s| == n && forall c :: c in s ==> c in LETTERS
  }

  lemma SmallLetters(c: char)
    ensures c in "abcdefghijklmnopqrstuvwxyz" <==> 'a' <= c <= 'z'
  {
  }

  lemma CapitalLetters(c: char)
    ensures c in "ABCDEFGHIJKLMNOPQRSTUVWXYZ" <==> 'A' <= c <= 'Z'
  {
  }

  lemma Digits(c: char)
    ensures c in "0123456789" <==> '0' <= c <= '9'
  {
  }

  lemma LetterRanges(c: char)
    ensures c in LETTERS <==> 'a' <= c <= 'z' || 'A' <= c <= 'Z' || '0' <= c <= '9'
  {
    SmallLetters(c);
    CapitalLetters(c);
    Digits(c);
  }

  /** The texts it can yield are all those of the length, over small letters, capitals and digits. */
  lemma RandSeqAlphabet(s: string, n: nat)
    ensures IsRandSeq(s, n) <==>
              |s| == n && forall c :: c in s ==> 'a' <= c <= 'z' || 'A' <= c <= 'Z' || '0' <= c <= '9'
  {
    forall c: char ensures c in LETTERS <==> 'a' <= c <= 'z' || 'A' <= c <= 'Z' || '0' <= c <= '9' {
      LetterRanges(c);
    }
  }

  method RandSeq(n: nat) returns (s: string)
    ensures IsRandSeq(s, n)
  {
    var b := new char[n];
    for i := 0 to n
      invariant forall j :: 0 <= j < i ==> b[j] in LETTERS
    {
      var k: nat :| k < |LETTERS|;
      b[i] := LETTERS[k];
    }
    s := b[..];
  }
}
