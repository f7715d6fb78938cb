/** The browser's cookie store as the page sees it through
    `document.cookie`: reading gives the visible cookies as `name=value`
    pairs joined by `"; "`, and assigning a Set-Cookie line stores,
    replaces or deletes one cookie. Only the behaviour the core depends on
    is modelled: the parse of a line's name-value pair (section 5.2 of
    RFC 6265), in-place replacement of a cookie of the same name, and the
    deletion of a cookie written already expired (section 5.3). */
module Cookies {
  import opened Wrappers
  import opened Text

  datatype Cookie = Cookie(name: string, value: string)

  /** The separators of section 2.2 of RFC 2616. */
  predicate IsSeparator(c: char) {
    c in "()<>@,;:\\\"/[]?={} \t"
  }

  /** A cookie name must be a token (section 4.1.1 of RFC 6265): visible
      ASCII without separators. */
  predicate IsToken(s: string) {
    |s| > 0 && forall k :: 0 <= k < |s| ==> '!' <= s[k] <= '~' && !IsSeparator(s[k])
  }

  /** What the store maintains: names are tokens and distinct, values hold
      no `;`. */
  predicate WellFormed(cs: seq<Cookie>) {
    (forall k :: 0 <= k < |cs| ==> IsToken(cs[k].name) && ';' !in cs[k].value)
    && (forall i, j :: 0 <= i < j < |cs| ==> cs[i].name != cs[j].name)
  }

  /** The cookie a Set-Cookie line describes: the text before the first
      `;` is the name-value pair, split at its first `=`, both halves
      stripped of spaces and tabs; a line without `=` or whose name is not
      a token is ignored. The attributes after the first `;` are left to
      the browser. */
  function ParseSetCookie(line: string): (r: Option<Cookie>)
    ensures r.Some? ==> IsToken(r.value.name) && ';' !in r.value.value
  {
    var pair := Split(line, ';')[0];
    var i := IndexOf(pair, '=');
    if i == |pair| then None
    else
      var name := Trim(pair[..i], Wsp);
      var value := Trim(pair[i + 1..], Wsp);
      assert ';' !in pair[i + 1..];
      TrimFree(pair[i + 1..], Wsp, ';');
      if IsToken(name) then Some(Cookie(name, value)) else None
  }

  function Pair(c: Cookie): string {
    c.name + "=" + c.value
  }

  /** `document.cookie`: the pieces of the reading, the first bare and the
      others after the space that follows each `;`. */
  function Segments(cs: seq<Cookie>): (r: seq<string>)
    ensures |r| == |cs|
  {
    seq(|cs|, k requires 0 <= k < |cs| => (if k == 0 then "" else " ") + Pair(cs[k]))
  }

  function Render(cs: seq<Cookie>): (r: string)
    ensures r == "" <==> cs == []
    ensures cs != [] ==> StartsWith(r, Pair(cs[0]))
  {
    if cs == [] then ""
    else
      var segs := Segments(cs);
      assert segs[0] == Pair(cs[0]);
      Join(segs, ';')
  }

  /** Storing `c`: a cookie of the same name is replaced where it stands,
      otherwise `c` is added last. */
  function Upsert(cs: seq<Cookie>, c: Cookie): (r: seq<Cookie>)
    ensures c in r
    ensures WellFormed(cs) ==> forall x :: x in r ==> x == c || (x in cs && x.name != c.name)
    ensures WellFormed(cs) && IsToken(c.name) && ';' !in c.value ==> WellFormed(r)
  {
    if cs == [] then [c]
    else if cs[0].name == c.name then [c] + cs[1..]
    else
      assert WellFormed(cs) ==> WellFormed(cs[1..]);
      [cs[0]] + Upsert(cs[1..], c)
  }

  /** Deleting every cookie named `name`. */
  function Without(cs: seq<Cookie>, name: string): (r: seq<Cookie>)
    ensures forall x :: x in r <==> x in cs && x.name != name
    ensures WellFormed(cs) ==> WellFormed(r)
  {
    if cs == [] then []
    else
      assert WellFormed(cs) ==> WellFormed(cs[1..]);
      (if cs[0].name == name then [] else [cs[0]]) + Without(cs[1..], name)
  }

  /** The store after the page assigns `line` to `document.cookie`;
      `expired` is the browser's verdict, from the line's Max-Age or
      Expires attribute and its clock, that the cookie is already
      expired. */
  function AfterWrite(cs: seq<Cookie>, line: string, expired: bool): (r: seq<Cookie>)
    ensures WellFormed(cs) ==> WellFormed(r)
  {
    match ParseSetCookie(line)
    case None => cs
    case Some(c) => if expired then Without(cs, c.name) else Upsert(cs, c)
  }

  /** Storing a cookie changes nothing about the cookies of other names,
      not even their order. */
  lemma {:induction false} UpsertKeepsOthers(cs: seq<Cookie>, c: Cookie)
    requires WellFormed(cs)
    ensures Without(Upsert(cs, c), c.name) == Without(cs, c.name)
  {
    if cs != [] {
      if cs[0].name == c.name {
        assert c !in cs[1..];
        assert forall x :: x in cs[1..] ==> x.name != c.name;
        WithoutAbsent(cs[1..], c.name);
      } else {
        UpsertKeepsOthers(cs[1..], c);
      }
    }
  }

  /** Deleting a name nobody has changes nothing. */
  lemma {:induction false} WithoutAbsent(cs: seq<Cookie>, name: string)
    requires forall x :: x in cs ==> x.name != name
    ensures Without(cs, name) == cs
  {
    if cs != [] {
      WithoutAbsent(cs[1..], name);
    }
  }

  /** Deleting twice is deleting once. */
  lemma WithoutIdempotent(cs: seq<Cookie>, name: string)
    ensures Without(Without(cs, name), name) == Without(cs, name)
  {
    WithoutAbsent(Without(cs, name), name);
  }

  /** A line whose first `;`-piece is a pair with a token name describes
      the cookie of that name, with its value stripped of spaces and tabs. */
  lemma ParseHead(line: string, c: Cookie)
    requires IsToken(c.name)
    requires Split(line, ';')[0] == Pair(c)
    ensures ParseSetCookie(line) == Some(Cookie(c.name, Trim(c.value, Wsp)))
  {
    TokenFree(c.name);
    TokenUnpadded(c.name);
    PairHalves(c);
  }

  /** A line that starts with a token name and `=` describes the cookie of
      that name, whose value is the rest up to the first `;`, unpadded;
      the attributes after it do not matter. */
  lemma ParseNamed(name: string, raw: string, attributes: string)
    requires IsToken(name)
    requires attributes == [] || attributes[0] == ';'
    ensures ParseSetCookie(name + "=" + raw + attributes)
            == Some(Cookie(name, Trim(Split(raw, ';')[0], Wsp)))
  {
    TokenFree(name);
    HeadOfNamed(name, raw, attributes);
    ParseHead(name + "=" + raw + attributes, Cookie(name, Split(raw, ';')[0]));
  }

  lemma HeadOfNamed(name: string, raw: string, attributes: string)
    requires ';' !in name
    requires attributes == [] || attributes[0] == ';'
    ensures Split(name + "=" + raw + attributes, ';')[0] == Pair(Cookie(name, Split(raw, ';')[0]))
  {
    assert name + "=" + raw + attributes == (name + "=") + (raw + attributes);
    SplitHeadAfterFree(name + "=", raw + attributes, ';');
    SplitHeadBefore(raw, attributes, ';');
  }

  /** A line made of a pair whose name is a token and whose value holds no
      `;` and is unpadded, followed by attributes, parses back to that
      cookie. */
  lemma ParsePair(c: Cookie, attributes: string)
    requires IsToken(c.name) && ';' !in c.value
    requires c.value == [] || (c.value[0] !in Wsp && c.value[|c.value| - 1] !in Wsp)
    requires attributes == [] || attributes[0] == ';'
    ensures ParseSetCookie(Pair(c) + attributes) == Some(c)
  {
    FirstPiece(Pair(c), attributes);
    ParseHead(Pair(c) + attributes, c);
    TrimUnchanged(c.value, Wsp);
  }

  /** A token holds neither `=` nor `;`. */
  lemma TokenFree(name: string)
    requires IsToken(name)
    ensures '=' !in name && ';' !in name
  {
  }

  /** Trimming leaves a token alone. */
  lemma TokenUnpadded(name: string)
    requires IsToken(name)
    ensures Trim(name, Wsp) == name
  {
    assert name[0] !in Wsp && name[|name| - 1] !in Wsp;
    TrimUnchanged(name, Wsp);
  }

  /** A pair whose name holds no `=` splits at its first `=` back into its
      name and its value. */
  lemma PairHalves(c: Cookie)
    requires '=' !in c.name
    ensures IndexOf(Pair(c), '=') == |c.name|
    ensures Pair(c)[..|c.name|] == c.name && Pair(c)[|c.name| + 1..] == c.value
  {
    assert Pair(c) == c.name + ("=" + c.value);
    IndexOfAfterFree(c.name, "=" + c.value, '=');
  }

  /** The name-value pair of a line is the text before its first `;`. */
  lemma FirstPiece(p: string, attributes: string)
    requires ';' !in p
    requires attributes == [] || attributes[0] == ';'
    ensures Split(p + attributes, ';')[0] == p
  {
    if attributes == [] {
      assert p + attributes == p;
      SplitFree(p, ';');
    } else {
      assert p + attributes == p + [';'] + attributes[1..];
      SplitAroundFree(p, attributes[1..], ';');
    }
  }

  /** A jar of one cookie reads as its pair. */
  lemma RenderOne(c: Cookie)
    ensures Render([c]) == Pair(c)
  {
    var segs := Segments([c]);
    assert segs[0] == "" + Pair(c) == Pair(c);
  }

  /** The reading splits at `;` back into its segments. */
  lemma RenderSplits(cs: seq<Cookie>)
    ensures WellFormed(cs) && cs != [] ==> Split(Render(cs), ';') == Segments(cs)
  {
    if WellFormed(cs) && cs != [] {
      var segs := Segments(cs);
      forall k | 0 <= k < |segs|
        ensures ';' !in segs[k]
      {
        assert ';' !in cs[k].name;
      }
      SplitJoin(segs, ';');
    }
  }

  /** The page's view of the browser's cookie store. */
  class CookieJar {
    var cookies: seq<Cookie>

    ghost predicate Valid()
      reads this
    {
      WellFormed(cookies)
    }

    constructor (initial: seq<Cookie>)
      requires WellFormed(initial)
      ensures Valid() && cookies == initial
    {
      cookies := initial;
    }

    /** Reading `document.cookie`: empty exactly when no cookie is
        stored, and otherwise splitting at `;` into one segment per
        cookie. */
    function Document(): (r: string)
      reads this
      ensures r == "" <==> cookies == []
      ensures WellFormed(cookies) && cookies != [] ==> Split(r, ';') == Segments(cookies)
    {
      RenderSplits(cookies);
      Render(cookies)
    }

    /** Assigning `line` to `document.cookie`. */
    method Write(line: string, expired: bool)
      requires Valid()
      modifies this
      ensures Valid()
      ensures cookies == AfterWrite(old(cookies), line, expired)
    {
      cookies := AfterWrite(cookies, line, expired);
    }
  }
}
