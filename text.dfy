/** The JavaScript string operations the core relies on
    (`String.prototype.indexOf`, `split`, `trim`, `startsWith`, and the
    decimal rendering of a non-negative integer), over `seq<char>`. */
module Text {

  /** `s.startsWith(prefix)`: the first characters of `s` are those of
      `prefix`, one by one. */
  predicate StartsWith(s: string, prefix: string)
    ensures StartsWith(s, prefix) <==> |prefix| <= |s| && forall k :: 0 <= k < |prefix| ==> s[k] == prefix[k]
  {
    |prefix| <= |s| && s[..|prefix|] == prefix
  }

  /** Index of the first `d` in `s`, or `|s|` when there is none. */
  function IndexOf(s: string, d: char): (i: nat)
    ensures i <= |s|
    ensures i < |s| ==> s[i] == d
    ensures forall j :: 0 <= j < i ==> s[j] != d
    decreases |s|
  {
    if |s| == 0 then 0
    else if s[0] == d then 0
    else 1 + IndexOf(s[1..], d)
  }

  /** Joins at least one piece with `d` between neighbours. */
  function Join(parts: seq<string>, d: char): string
    requires |parts| >= 1
    decreases |parts|
  {
    if |parts| == 1 then parts[0] else parts[0] + [d] + Join(parts[1..], d)
  }

  /** `s.split(d)` for a one-character separator: the pieces between
      successive occurrences of `d`, always at least one. */
  function Split(s: string, d: char): (r: seq<string>)
    ensures |r| >= 1
    ensures forall k :: 0 <= k < |r| ==> d !in r[k]
    decreases |s|
  {
    var i := IndexOf(s, d);
    if i == |s| then [s] else [s[..i]] + Split(s[i + 1..], d)
  }

  /** Joining the pieces back gives the original string. */
  lemma {:induction false} JoinSplit(s: string, d: char)
    ensures Join(Split(s, d), d) == s
    decreases |s|
  {
    var i := IndexOf(s, d);
    if i < |s| {
      var rest := Split(s[i + 1..], d);
      JoinSplit(s[i + 1..], d);
      SplitStep(s, d);
      JoinCons(s[..i], rest, d);
      assert s == s[..i] + [d] + s[i + 1..];
    }
  }

  lemma JoinCons(x: string, rest: seq<string>, d: char)
    requires |rest| >= 1
    ensures Join([x] + rest, d) == x + [d] + Join(rest, d)
  {
    assert ([x] + rest)[1..] == rest;
  }

  lemma IndexOfAfterFree(a: string, b: string, d: char)
    requires d !in a
    ensures IndexOf(a + b, d) == |a| + IndexOf(b, d)
    decreases |a|
  {
    if |a| > 0 {
      assert (a + b)[0] == a[0];
      assert (a + b)[1..] == a[1..] + b;
      IndexOfAfterFree(a[1..], b, d);
    } else {
      assert a + b == b;
    }
  }

  /** One step of `Split` at the first separator. */
  lemma SplitStep(s: string, d: char)
    requires IndexOf(s, d) < |s|
    ensures Split(s, d) == [s[..IndexOf(s, d)]] + Split(s[IndexOf(s, d) + 1..], d)
  {
  }

  /** `SplitAround` when the left part holds no separator. */
  lemma SplitAroundFree(a: string, b: string, d: char)
    requires d !in a
    ensures Split(a + [d] + b, d) == [a] + Split(b, d)
  {
    var s := a + [d] + b;
    assert s == a + ([d] + b);
    IndexOfAfterFree(a, [d] + b, d);
    assert s[..|a|] == a && s[|a| + 1..] == b;
    SplitStep(s, d);
  }

  /** There are two pieces or more exactly when the separator occurs. */
  lemma SplitMany(s: string, d: char)
    ensures |Split(s, d)| >= 2 <==> d in s
  {
    var i := IndexOf(s, d);
    if i < |s| {
      SplitStep(s, d);
    }
  }

  /** The first piece is the text before the first separator. */
  lemma SplitHead(s: string, d: char)
    ensures Split(s, d)[0] == s[..IndexOf(s, d)]
  {
  }

  /** A character that `s` lacks, no piece of `s` holds. */
  lemma {:induction false} SplitPiecesFree(s: string, d: char, c: char)
    ensures c !in s ==> forall k :: 0 <= k < |Split(s, d)| ==> c !in Split(s, d)[k]
    decreases |s|
  {
    var i := IndexOf(s, d);
    if c !in s && i < |s| {
      assert c !in s[..i] && c !in s[i + 1..];
      SplitPiecesFree(s[i + 1..], d, c);
      SplitStep(s, d);
    }
  }

  /** The first separator of `s` stays the first whatever follows it. */
  lemma IndexOfBefore(s: string, t: string, d: char)
    requires IndexOf(s, d) < |s|
    ensures IndexOf(s + t, d) == IndexOf(s, d)
    decreases |s|
  {
    if s[0] != d {
      assert (s + t)[1..] == s[1..] + t;
      IndexOfBefore(s[1..], t, d);
    }
  }

  /** A separator-free start joins the first piece of what follows. */
  lemma SplitHeadAfterFree(a: string, b: string, d: char)
    requires d !in a
    ensures Split(a + b, d)[0] == a + Split(b, d)[0]
  {
    IndexOfAfterFree(a, b, d);
    SplitHead(a + b, d);
    SplitHead(b, d);
    assert (a + b)[..|a| + IndexOf(b, d)] == a + b[..IndexOf(b, d)];
  }

  /** Whatever follows a separator leaves the first piece alone. */
  lemma SplitHeadBefore(s: string, t: string, d: char)
    requires t == [] || t[0] == d
    ensures Split(s + t, d)[0] == Split(s, d)[0]
  {
    SplitHead(s + t, d);
    SplitHead(s, d);
    if IndexOf(s, d) < |s| {
      IndexOfBefore(s, t, d);
      assert (s + t)[..IndexOf(s, d)] == s[..IndexOf(s, d)];
    } else {
      IndexOfAfterFree(s, t, d);
      assert (s + t)[..|s|] == s;
    }
  }

  /** A string free of the separator is a single piece. */
  lemma SplitFree(s: string, d: char)
    requires d !in s
    ensures Split(s, d) == [s]
  {
  }

  /** `Split` is the inverse of `Join` on pieces that are free of the
      separator. */
  lemma {:induction false} SplitJoin(parts: seq<string>, d: char)
    requires |parts| >= 1
    requires forall k :: 0 <= k < |parts| ==> d !in parts[k]
    ensures Split(Join(parts, d), d) == parts
    decreases |parts|
  {
    if |parts| == 1 {
      SplitFree(parts[0], d);
    } else {
      SplitJoin(parts[1..], d);
      SplitAroundFree(parts[0], Join(parts[1..], d), d);
      assert parts == [parts[0]] + parts[1..];
    }
  }

  /** Splitting distributes over a separator: the pieces of `a + [d] + b`
      are those of `a` followed by those of `b`. */
  lemma SplitAround(a: string, b: string, d: char)
    ensures Split(a + [d] + b, d) == Split(a, d) + Split(b, d)
  {
    var xs, ys := Split(a, d), Split(b, d);
    JoinSplit(a, d);
    JoinSplit(b, d);
    JoinAppend(xs, ys, d);
    SplitJoin(xs + ys, d);
  }

  /** Joining two non-empty lists of pieces puts one separator between
      their joins. */
  lemma {:induction false} JoinAppend(xs: seq<string>, ys: seq<string>, d: char)
    requires |xs| >= 1 && |ys| >= 1
    ensures Join(xs + ys, d) == Join(xs, d) + [d] + Join(ys, d)
    decreases |xs|
  {
    if |xs| == 1 {
      assert (xs + ys)[1..] == ys;
    } else {
      assert (xs + ys)[1..] == xs[1..] + ys;
      JoinAppend(xs[1..], ys, d);
    }
  }

  /** `s.trimStart()` over the whitespace set `ws`. */
  function TrimStart(s: string, ws: set<char>): (r: string)
    ensures |r| <= |s| && r == s[|s| - |r|..]
    ensures r == [] || r[0] !in ws
    ensures forall k :: 0 <= k < |s| - |r| ==> s[k] in ws
    decreases |s|
  {
    if |s| > 0 && s[0] in ws then TrimStart(s[1..], ws) else s
  }

  /** `s.trimEnd()` over the whitespace set `ws`. */
  function TrimEnd(s: string, ws: set<char>): (r: string)
    ensures |r| <= |s| && r == s[..|r|]
    ensures r == [] || r[|r| - 1] !in ws
    ensures forall k :: |r| <= k < |s| ==> s[k] in ws
    decreases |s|
  {
    if |s| > 0 && s[|s| - 1] in ws then TrimEnd(s[..|s| - 1], ws) else s
  }

  /** `s.trim()` over the whitespace set `ws`: neither end of the result
      is whitespace. */
  function Trim(s: string, ws: set<char>): (r: string)
    ensures |r| <= |s|
    ensures r == [] || (r[0] !in ws && r[|r| - 1] !in ws)
  {
    TrimEnd(TrimStart(s, ws), ws)
  }

  /** What `trim` leaves is a piece of the original with only whitespace
      before and after it. */
  lemma TrimPiece(s: string, ws: set<char>)
    ensures var r := Trim(s, ws);
            exists a :: 0 <= a <= |s| - |r| && r == s[a..][..|r|]
              && (forall k :: 0 <= k < a ==> s[k] in ws)
              && (forall k :: a + |r| <= k < |s| ==> s[k] in ws)
  {
    var t := TrimStart(s, ws);
    var r := TrimEnd(t, ws);
    var a := |s| - |t|;
    assert 0 <= a <= |s| - |r| && r == s[a..][..|r|];
    forall k | a + |r| <= k < |s|
      ensures s[k] in ws
    {
      assert s[k] == t[k - a];
    }
  }

  /** Trimming only cuts characters away: whatever the trimmed string
      holds, the original holds. */
  lemma TrimWithin(s: string, ws: set<char>, c: char)
    requires c in Trim(s, ws)
    ensures c in s
  {
    var t := TrimStart(s, ws);
    var r := TrimEnd(t, ws);
    var k :| 0 <= k < |r| && r[k] == c;
    assert t[k] == c;
    assert s[|s| - |t| + k] == c;
  }

  /** A character the original lacks, the trimmed string lacks too. */
  lemma TrimFree(s: string, ws: set<char>, c: char)
    requires c !in s
    ensures c !in Trim(s, ws)
  {
    if c in Trim(s, ws) {
      TrimWithin(s, ws, c);
    }
  }

  /** A string that neither starts nor ends with whitespace is its own
      trim. */
  lemma TrimUnchanged(s: string, ws: set<char>)
    requires s == [] || (s[0] !in ws && s[|s| - 1] !in ws)
    ensures Trim(s, ws) == s
  {
  }

  /** Trimming never cuts into a leading part that ends in a non-space:
      if `p` starts the string after its leading whitespace, it starts the
      trimmed string. */
  lemma TrimKeepsPrefix(s: string, p: string, ws: set<char>)
    requires |p| > 0 && p[|p| - 1] !in ws
    ensures StartsWith(Trim(s, ws), p) <==> StartsWith(TrimStart(s, ws), p)
  {
    var t := TrimStart(s, ws);
    var r := TrimEnd(t, ws);
    if StartsWith(t, p) {
      assert t[|p| - 1] !in ws;
      assert |r| >= |p|;
      assert r[..|p|] == t[..|p|];
    }
  }

  /** Leading whitespace in front of a string that starts with a
      non-space is exactly what trimming the start removes. */
  lemma TrimStartSkips(lead: string, s: string, ws: set<char>)
    requires forall k :: 0 <= k < |lead| ==> lead[k] in ws
    requires s != [] && s[0] !in ws
    ensures TrimStart(lead + s, ws) == s
    decreases |lead|
  {
    if lead != [] {
      assert (lead + s)[1..] == lead[1..] + s;
      TrimStartSkips(lead[1..], s, ws);
    } else {
      assert lead + s == s;
    }
  }

  /** A padded string starts, once trimmed, with `p` exactly when the
      unpadded string does. */
  lemma TrimmedStartsWith(lead: string, s: string, p: string, ws: set<char>)
    requires forall k :: 0 <= k < |lead| ==> lead[k] in ws
    requires s != [] && s[0] !in ws
    requires |p| > 0 && p[|p| - 1] !in ws
    ensures StartsWith(Trim(lead + s, ws), p) <==> StartsWith(s, p)
  {
    TrimStartSkips(lead, s, ws);
    TrimKeepsPrefix(lead + s, p, ws);
  }

  /** `name` followed by `d` starts with `n` followed by `d` exactly when
      the two names agree, provided neither holds `d`. */
  lemma PrefixAtSeparator(name: string, rest: string, n: string, d: char)
    requires d !in name && d !in n
    ensures StartsWith(name + [d] + rest, n + [d]) <==> name == n
  {
    var s := name + [d] + rest;
    if |name| < |n| {
      assert s[|name|] == d != (n + [d])[|name|];
    } else if |name| > |n| {
      assert s[|n|] == name[|n|] != (n + [d])[|n|];
    } else if name == n {
      assert s[..|n| + 1] == n + [d];
    } else {
      assert s[..|n|] == name;
    }
  }

  /** The whitespace JavaScript's `trim` removes: the WhiteSpace and
      LineTerminator code points of section 12.2 and 12.3 of ECMA-262,
      with every space separator of Unicode category Zs. */
  const JsWhitespace: set<char> := {
    '\t', '\n', '\U{000B}', '\U{000C}', '\r', ' ', '\U{00A0}', '\U{1680}',
    '\U{2000}', '\U{2001}', '\U{2002}', '\U{2003}', '\U{2004}', '\U{2005}',
    '\U{2006}', '\U{2007}', '\U{2008}', '\U{2009}', '\U{200A}', '\U{2028}',
    '\U{2029}', '\U{202F}', '\U{205F}', '\U{3000}', '\U{FEFF}'
  }

  /** WSP of RFC 5234 (space and horizontal tab). */
  const Wsp: set<char> := {' ', '\t'}

  predicate IsDigit(c: char) {
    '0' <= c <= '9'
  }

  /** The decimal rendering of `n` that a template literal produces. */
  function Decimal(n: nat): (r: string)
    ensures |r| >= 1
    ensures forall k :: 0 <= k < |r| ==> IsDigit(r[k])
    ensures |r| > 1 ==> r[0] != '0'
  {
    var last := ['0' + (n % 10) as char];
    if n < 10 then last else Decimal(n / 10) + last
  }

  /** The number a digit string denotes. */
  function DecimalValue(s: string): nat
    requires forall k :: 0 <= k < |s| ==> IsDigit(s[k])
  {
    if s == [] then 0
    else
      var c := s[|s| - 1];
      assert IsDigit(c);
      DecimalValue(s[..|s| - 1]) * 10 + (c as int - '0' as int) as nat
  }

  /** Reading the decimal rendering back gives the number. */
  lemma {:induction false} DecimalRoundTrip(n: nat)
    ensures DecimalValue(Decimal(n)) == n
  {
    var r := Decimal(n);
    if n >= 10 {
      DecimalRoundTrip(n / 10);
      assert r[..|r| - 1] == Decimal(n / 10);
    }
  }

  /** Distinct numbers render as distinct strings. */
  lemma DecimalInjective(m: nat, n: nat)
    requires m != n
    ensures Decimal(m) != Decimal(n)
  {
    DecimalRoundTrip(m);
    DecimalRoundTrip(n);
  }
}
