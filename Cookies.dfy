/**
 * The anonymous-identity cookie logic of `src/services/auth.ts`.
 *
 * The browser's cookie jar is a list of name/value pairs with distinct names,
 * in creation order; `document.cookie` reads it as the pairs `name=value`
 * joined by "; " (the cookie-string form of section 5.4 of RFC 6265).
 * `getCookie` is a string parser over that text; the identity operations
 * read and write the jar through it.
 */
module Cookies {
  import opened Strings

  const USER_ID_COOKIE: string := "ai_mentor_user_id"
  const TEMP_USER: string := "temp-user"

  // ---------------------------------------------------------------------
  // String.prototype.indexOf and String.prototype.split
  // ---------------------------------------------------------------------

  /** The first index at or after `from` where `sep` occurs in `s`. */
  function IndexOf(s: string, sep: string, from: nat): (r: Option<nat>)
    requires from <= |s|
    ensures r.Some? ==> from <= r.value && OccursAt(s, sep, r.value)
    ensures r.Some? ==> forall j | from <= j < r.value :: !OccursAt(s, sep, j)
    ensures r.None? ==> forall j | from <= j :: !OccursAt(s, sep, j)
    decreases |s| - from
  {
    if from + |sep| > |s| then None
    else if s[from..from + |sep|] == sep then Some(from)
    else IndexOf(s, sep, from + 1)
  }

  /** `s.substring(from).split(sep)` for a non-empty separator: the pieces
      between the successive non-overlapping occurrences of `sep`, scanned
      from the left. */
  function SplitFrom(s: string, sep: string, from: nat): (parts: seq<string>)
    requires |sep| > 0 && from <= |s|
    ensures |parts| >= 1
    decreases |s| - from
  {
    match IndexOf(s, sep, from)
    case None => [s[from..]]
    case Some(i) => [s[from..i]] + SplitFrom(s, sep, i + |sep|)
  }

  // ---------------------------------------------------------------------
  // getCookie (auth.ts:48-60, the part after the window test)
  // ---------------------------------------------------------------------

  /** The text `getCookie` splits on: "; " + name + "=". */
  function Pattern(name: string): (p: string)
    ensures |p| == |name| + 3 && p[0] == ';'
  {
    "; " + name + "="
  }

  /** JavaScript's `v || null` on a string. */
  function NonEmpty(v: string): (r: Option<string>)
    ensures r.Some? <==> v != ""
    ensures r.Some? ==> r.value == v
  {
    if v == "" then None else Some(v)
  }

  /** `getCookie(name)` over the text `document` of `document.cookie`. */
  function ParseCookie(document: string, name: string): (r: Option<string>)
    ensures r.Some? ==> r.value != "" && NoChar(r.value, ';')
  {
    var parts := SplitFrom("; " + document, Pattern(name), 0);
    if |parts| == 2 then NonEmpty(Before(parts[1], ';')) else None
  }

  /** When the pattern occurs exactly once, the value is the text after it up
      to the next ';' or the end, an empty value being reported as absent. */
  lemma ParseCookieUnique(document: string, name: string, i: nat)
    requires OccursAt("; " + document, Pattern(name), i)
    requires forall j :: OccursAt("; " + document, Pattern(name), j) ==> j == i
    ensures SplitFrom("; " + document, Pattern(name), 0)
            == [("; " + document)[..i], ("; " + document)[i + |Pattern(name)|..]]
    ensures ParseCookie(document, name)
            == NonEmpty(Before(("; " + document)[i + |Pattern(name)|..], ';'))
  {
    var t, p := "; " + document, Pattern(name);
    var first := IndexOf(t, p, 0);
    assert first == Some(i);
    var after := IndexOf(t, p, i + |p|);
    assert after.None?;
    assert SplitFrom(t, p, 0) == [t[..i], t[i + |p|..]];
  }

  /** With no occurrence of the pattern, nothing is found. */
  lemma ParseCookieAbsent(document: string, name: string)
    requires forall j :: !OccursAt("; " + document, Pattern(name), j)
    ensures ParseCookie(document, name) == None
  {
    assert IndexOf("; " + document, Pattern(name), 0) == None;
  }

  /** The pattern of a ';'-free name never overlaps itself. */
  lemma PatternNoOverlap(t: string, name: string, k: int, m: int)
    requires NoChar(name, ';')
    requires OccursAt(t, Pattern(name), k) && OccursAt(t, Pattern(name), m) && k < m
    ensures k + |Pattern(name)| <= m
  {
    var p := Pattern(name);
    assert t[m] == p[0];
    assert forall d | k < d < k + |p| :: t[d] == p[d - k] && t[d] != ';';
  }

  /** With two or more occurrences of the pattern, nothing is found. */
  lemma ParseCookieDuplicate(document: string, name: string, i: nat, j: nat)
    requires NoChar(name, ';')
    requires OccursAt("; " + document, Pattern(name), i)
    requires OccursAt("; " + document, Pattern(name), j)
    requires i != j
    ensures ParseCookie(document, name) == None
  {
    var t := "; " + document;
    var lo, hi := if i < j then i else j, if i < j then j else i;
    PatternNoOverlap(t, name, lo, hi);
    SplitMany(t, Pattern(name), lo, hi);
  }

  /** Two non-overlapping occurrences of `p` make `split` return at least three pieces. */
  lemma SplitMany(t: string, p: string, k: nat, m: nat)
    requires |p| > 0
    requires OccursAt(t, p, k) && OccursAt(t, p, m) && k + |p| <= m
    ensures |SplitFrom(t, p, 0)| >= 3
  {
    var f := IndexOf(t, p, 0).value;
    assert f <= k;
    var next := IndexOf(t, p, f + |p|);
    assert next.Some?;
    var tail := SplitFrom(t, p, f + |p|);
    assert tail == [t[f + |p|..next.value]] + SplitFrom(t, p, next.value + |p|);
    assert SplitFrom(t, p, 0) == [t[..f]] + tail;
  }

  // ---------------------------------------------------------------------
  // The cookie jar and its serialisation
  // ---------------------------------------------------------------------

  datatype Cookie = Cookie(name: string, value: string)

  /** A cookie name as a cookie-string can carry it: non-empty, without ';' or '='. */
  predicate WellFormedName(name: string)
  {
    name != "" && NoChar(name, ';') && NoChar(name, '=')
  }

  predicate WellFormedCookie(c: Cookie)
  {
    WellFormedName(c.name) && NoChar(c.value, ';')
  }

  /** The jar's invariant: well-formed cookies with pairwise distinct names. */
  predicate ValidJar(jar: seq<Cookie>)
  {
    && (forall k | 0 <= k < |jar| :: WellFormedCookie(jar[k]))
    && (forall k, l | 0 <= k < l < |jar| :: jar[k].name != jar[l].name)
  }

  /** `document.cookie`: the pairs `name=value` joined by "; ". */
  function Serialise(jar: seq<Cookie>): string
  {
    if jar == [] then ""
    else if |jar| == 1 then jar[0].name + "=" + jar[0].value
    else jar[0].name + "=" + jar[0].value + "; " + Serialise(jar[1..])
  }

  /** Every pair preceded by "; ", which is what "; " + document.cookie reads as. */
  function Prefixed(jar: seq<Cookie>): (s: string)
    ensures jar != [] ==> s != [] && s[0] == ';'
  {
    if jar == [] then "" else Pattern(jar[0].name) + jar[0].value + Prefixed(jar[1..])
  }

  lemma {:induction false} SerialisePrefixed(jar: seq<Cookie>)
    requires jar != []
    ensures "; " + Serialise(jar) == Prefixed(jar)
  {
    if |jar| > 1 {
      SerialisePrefixed(jar[1..]);
    }
  }

  lemma {:induction false} PrefixedAppend(a: seq<Cookie>, b: seq<Cookie>)
    ensures Prefixed(a + b) == Prefixed(a) + Prefixed(b)
  {
    if a == [] {
      assert a + b == b;
    } else {
      assert (a + b)[1..] == a[1..] + b;
      PrefixedAppend(a[1..], b);
    }
  }

  /** Where the k-th cookie's text starts in `Prefixed(jar)`. */
  function Offset(jar: seq<Cookie>, k: nat): nat
    requires k <= |jar|
  {
    |Prefixed(jar[..k])|
  }

  /** `Prefixed(jar)` around its k-th cookie: the text before it, the
      cookie's own pattern and value, and the text after it. */
  lemma PrefixedAt(jar: seq<Cookie>, k: nat)
    requires k < |jar|
    ensures Prefixed(jar)
            == Prefixed(jar[..k]) + (Pattern(jar[k].name) + jar[k].value + Prefixed(jar[k + 1..]))
  {
    var tail := jar[k..];
    assert jar == jar[..k] + tail;
    PrefixedAppend(jar[..k], tail);
    assert tail[0] == jar[k];
    assert tail[1..] == jar[k + 1..];
  }

  lemma SliceAround(x: string, p: string, v: string, r: string)
    ensures (x + (p + v + r))[|x|..|x| + |p|] == p
    ensures (x + (p + v + r))[|x| + |p|..] == v + r
  {
    var t := x + (p + v + r);
    assert forall d | 0 <= d < |p| :: t[|x| + d] == p[d];
    assert forall d | 0 <= d < |v + r| :: t[|x| + |p| + d] == (v + r)[d];
  }

  lemma SliceRight(a: string, b: string, lo: int, hi: int)
    requires |a| <= lo <= hi <= |a| + |b|
    ensures (a + b)[lo..hi] == b[lo - |a|..hi - |a|]
  {
    assert forall e | lo <= e < hi :: (a + b)[e] == b[e - |a|];
  }

  /** In a jar of well-formed cookies, an occurrence of the pattern for a
      well-formed name is the start of a cookie with exactly that name. */
  lemma {:induction false} MatchedCookie(jar: seq<Cookie>, name: string, i: int) returns (k: nat)
    requires forall c | c in jar :: WellFormedCookie(c)
    requires WellFormedName(name)
    requires OccursAt(Prefixed(jar), Pattern(name), i)
    ensures k < |jar| && jar[k].name == name && i == Offset(jar, k)
  {
    var p := Pattern(name);
    var c := jar[0];
    assert c in jar;
    var a, b := Pattern(c.name) + c.value, Prefixed(jar[1..]);
    assert Prefixed(jar) == a + b;
    assert (a + b)[i] == ';';
    OnlyLeadingSemicolon(c);
    if i == 0 {
      NamesAfterPattern(a + b, c.name, name);
      k := 0;
    } else {
      assert i >= |a|;
      SliceRight(a, b, i, i + |p|);
      var k' := MatchedCookie(jar[1..], name, i - |a|);
      k := k' + 1;
      assert jar[..k] == [c] + jar[1..][..k'];
    }
  }

  /** The text of one well-formed cookie has its only ';' in front. */
  lemma OnlyLeadingSemicolon(c: Cookie)
    requires WellFormedCookie(c)
    ensures forall d | 0 < d < |Pattern(c.name) + c.value| :: (Pattern(c.name) + c.value)[d] != ';'
  {
    var a := Pattern(c.name) + c.value;
    assert forall d | 2 <= d < 2 + |c.name| :: a[d] == c.name[d - 2];
    assert forall d | 3 + |c.name| <= d < |a| :: a[d] == c.value[d - 3 - |c.name|];
  }

  /** Two patterns of well-formed names that both start a text start it with
      the same name: the first '=' ends each. */
  lemma NamesAfterPattern(t: string, n1: string, n2: string)
    requires WellFormedName(n1) && WellFormedName(n2)
    requires OccursAt(t, Pattern(n1), 0) && OccursAt(t, Pattern(n2), 0)
    ensures n1 == n2
  {
    assert forall d | 0 <= d < |n1| :: t[2 + d] == n1[d];
    assert forall d | 0 <= d < |n2| :: t[2 + d] == n2[d];
    assert t[2 + |n1|] == '=' && t[2 + |n2|] == '=';
    assert |n1| == |n2|;
  }

  lemma {:induction false} BeforeSemicolon(v: string, rest: string)
    requires NoChar(v, ';')
    requires rest == [] || rest[0] == ';'
    ensures Before(v + rest, ';') == v
  {
    if v != [] {
      assert (v + rest)[1..] == v[1..] + rest;
      BeforeSemicolon(v[1..], rest);
    }
  }

  /** The index of the cookie named `name`, if any. */
  function Find(jar: seq<Cookie>, name: string): (r: Option<nat>)
    ensures r.Some? ==> r.value < |jar| && jar[r.value].name == name
    ensures r.Some? ==> forall k | 0 <= k < r.value :: jar[k].name != name
    ensures r.None? ==> forall k | 0 <= k < |jar| :: jar[k].name != name
  {
    if jar == [] then None
    else if jar[0].name == name then Some(0)
    else match Find(jar[1..], name)
      case None => None
      case Some(k) => Some(k + 1)
  }

  /** The value the jar holds under `name`: the reference `getCookie` is
      measured against. */
  function Lookup(jar: seq<Cookie>, name: string): (r: Option<string>)
  {
    match Find(jar, name)
    case None => None
    case Some(k) => Some(jar[k].value)
  }

  /** Reading `document.cookie` back with `getCookie` gives the jar's value
      for the name, an empty value read as absent. */
  lemma ParseSerialised(jar: seq<Cookie>, name: string)
    requires ValidJar(jar) && WellFormedName(name)
    ensures ParseCookie(Serialise(jar), name)
            == match Lookup(jar, name) case None => None case Some(v) => NonEmpty(v)
  {
    if jar == [] {
      assert forall j :: !OccursAt("; ", Pattern(name), j);
      ParseCookieAbsent(Serialise(jar), name);
    } else if Find(jar, name).None? {
      ParseSerialisedAbsent(jar, name);
    } else {
      ParseSerialisedPresent(jar, name, Find(jar, name).value);
    }
  }

  lemma ParseSerialisedAbsent(jar: seq<Cookie>, name: string)
    requires jar != [] && ValidJar(jar) && WellFormedName(name)
    requires Find(jar, name).None?
    ensures ParseCookie(Serialise(jar), name) == None
  {
    var t, p := "; " + Serialise(jar), Pattern(name);
    SerialisePrefixed(jar);
    forall j ensures !OccursAt(t, p, j) {
      if OccursAt(t, p, j) {
        var k := MatchedCookie(jar, name, j);
      }
    }
    ParseCookieAbsent(Serialise(jar), name);
  }

  lemma ParseSerialisedPresent(jar: seq<Cookie>, name: string, k: nat)
    requires ValidJar(jar) && WellFormedName(name)
    requires k < |jar| && jar[k].name == name
    ensures ParseCookie(Serialise(jar), name) == NonEmpty(jar[k].value)
  {
    var x, v, r := Prefixed(jar[..k]), jar[k].value, Prefixed(jar[k + 1..]);
    SerialisePrefixed(jar);
    PrefixedAt(jar, k);
    UniqueOccurrence(jar, name, k);
    assert WellFormedCookie(jar[k]);
    ParseCookieAt(Serialise(jar), name, x, v, r);
  }

  /** A document that is `x`, the pattern, a ';'-free value and then either
      nothing or more cookies, with no other occurrence of the pattern, yields
      that value. */
  lemma ParseCookieAt(document: string, name: string, x: string, v: string, r: string)
    requires "; " + document == x + (Pattern(name) + v + r)
    requires forall j :: OccursAt("; " + document, Pattern(name), j) ==> j == |x|
    requires NoChar(v, ';') && (r == [] || r[0] == ';')
    ensures ParseCookie(document, name) == NonEmpty(v)
  {
    SliceAround(x, Pattern(name), v, r);
    ParseCookieUnique(document, name, |x|);
    BeforeSemicolon(v, r);
  }

  /** In a valid jar the pattern of a present name occurs where that cookie
      starts and nowhere else, so `split` cuts the text in two. */
  lemma UniqueOccurrence(jar: seq<Cookie>, name: string, k: nat)
    requires ValidJar(jar) && WellFormedName(name)
    requires k < |jar| && jar[k].name == name
    ensures OccursAt("; " + Serialise(jar), Pattern(name), Offset(jar, k))
    ensures forall j :: OccursAt("; " + Serialise(jar), Pattern(name), j) ==> j == Offset(jar, k)
    ensures |SplitFrom("; " + Serialise(jar), Pattern(name), 0)| == 2
  {
    SerialisePrefixed(jar);
    PrefixedAt(jar, k);
    SliceAround(Prefixed(jar[..k]), Pattern(name), jar[k].value, Prefixed(jar[k + 1..]));
    forall j | OccursAt(Prefixed(jar), Pattern(name), j) ensures j == Offset(jar, k) {
      var k' := MatchedCookie(jar, name, j);
      assert k' == k;
    }
    ParseCookieUnique(Serialise(jar), name, Offset(jar, k));
  }

  // ---------------------------------------------------------------------
  // Writing and expiring a cookie
  // ---------------------------------------------------------------------

  /** Storing `name=value`: an existing cookie of that name keeps its place
      (section 5.3, step 11.3 of RFC 6265); a new one goes last. */
  function Write(jar: seq<Cookie>, name: string, value: string): (r: seq<Cookie>)
    ensures |r| == |jar| || |r| == |jar| + 1
  {
    match Find(jar, name)
    case Some(k) => jar[k := Cookie(name, value)]
    case None => jar + [Cookie(name, value)]
  }

  /** Expiring the cookie `name`: it leaves the jar, the others keep their order. */
  function Remove(jar: seq<Cookie>, name: string): (r: seq<Cookie>)
    ensures |r| <= |jar|
    ensures forall c | c in r :: c in jar && c.name != name
    ensures forall c | c in jar && c.name != name :: c in r
  {
    if jar == [] then []
    else if jar[0].name == name then Remove(jar[1..], name)
    else [jar[0]] + Remove(jar[1..], name)
  }

  lemma WriteValid(jar: seq<Cookie>, name: string, value: string)
    requires ValidJar(jar) && WellFormedCookie(Cookie(name, value))
    ensures ValidJar(Write(jar, name, value))
    ensures Find(Write(jar, name, value), name).Some?
    ensures Lookup(Write(jar, name, value), name) == Some(value)
    ensures forall n | n != name :: Lookup(Write(jar, name, value), n) == Lookup(jar, n)
  {
    var r := Write(jar, name, value);
    forall n ensures Find(r, n) == (if n == name then Some(FindOrEnd(jar, name)) else Find(jar, n)) {
      FindAfterWrite(jar, name, value, n);
    }
  }

  /** Where `Write` puts the cookie: its old place, or the end. */
  function FindOrEnd(jar: seq<Cookie>, name: string): nat
  {
    match Find(jar, name) case Some(k) => k case None => |jar|
  }

  lemma FindAfterWrite(jar: seq<Cookie>, name: string, value: string, n: string)
    requires ValidJar(jar)
    ensures Find(Write(jar, name, value), n)
            == (if n == name then Some(FindOrEnd(jar, name)) else Find(jar, n))
  {
    var r := Write(jar, name, value);
    var f := Find(r, n);
    var e := FindOrEnd(jar, name);
    assert r[e].name == name;
    assert forall k | 0 <= k < |r| && k != e :: k < |jar| && r[k] == jar[k];
    if n == name {
      assert forall k | 0 <= k < e :: r[k].name != name;
      assert f.Some?;
      assert f.value == e;
    } else {
      var g := Find(jar, n);
      if g.Some? {
        assert g.value != e;
        assert r[g.value].name == n;
        assert f.Some?;
        assert f.value == g.value;
      } else {
        assert forall k | 0 <= k < |r| :: r[k].name != n;
      }
    }
  }

  lemma {:induction false} RemoveValid(jar: seq<Cookie>, name: string)
    requires ValidJar(jar)
    ensures ValidJar(Remove(jar, name))
    ensures Lookup(Remove(jar, name), name) == None
    ensures forall n | n != name :: Lookup(Remove(jar, name), n) == Lookup(jar, n)
  {
    if jar != [] {
      RemoveValid(jar[1..], name);
      if jar[0].name != name {
        RemoveConsDistinct(jar, name);
        forall n ensures n != name ==> Lookup(Remove(jar, name), n) == Lookup(jar, n) {
          if n != name {
            RemoveConsLookup(jar, name, n);
          }
        }
        RemoveConsFind(jar, name);
      }
    }
  }

  lemma RemoveConsDistinct(jar: seq<Cookie>, name: string)
    requires ValidJar(jar) && jar != [] && jar[0].name != name
    requires ValidJar(Remove(jar[1..], name))
    ensures ValidJar(Remove(jar, name))
  {
    var tail := Remove(jar[1..], name);
    var r := [jar[0]] + tail;
    assert Remove(jar, name) == r;
    assert forall l | 0 <= l < |tail| :: tail[l].name != jar[0].name by {
      forall l | 0 <= l < |tail| ensures tail[l].name != jar[0].name {
        assert tail[l] in tail;
        var m :| 0 <= m < |jar[1..]| && jar[1..][m] == tail[l];
        assert jar[m + 1] == tail[l];
      }
    }
    assert forall l | 0 < l < |r| :: r[l] == tail[l - 1];
  }

  lemma RemoveConsLookup(jar: seq<Cookie>, name: string, n: string)
    requires jar != [] && jar[0].name != name && n != name
    requires Lookup(Remove(jar[1..], name), n) == Lookup(jar[1..], n)
    ensures Lookup(Remove(jar, name), n) == Lookup(jar, n)
  {
    var tail := Remove(jar[1..], name);
    var r := [jar[0]] + tail;
    assert Remove(jar, name) == r;
    assert r[0] == jar[0] && r[1..] == tail;
  }

  lemma RemoveConsFind(jar: seq<Cookie>, name: string)
    requires jar != [] && jar[0].name != name
    requires Lookup(Remove(jar[1..], name), name) == None
    ensures Lookup(Remove(jar, name), name) == None
  {
    var tail := Remove(jar[1..], name);
    var r := [jar[0]] + tail;
    assert Remove(jar, name) == r;
    assert r[0] == jar[0] && r[1..] == tail;
  }

  // ---------------------------------------------------------------------
  // The identity operations
  // ---------------------------------------------------------------------

  /** An id the UUID generator may hand out: non-empty and ';'-free, so that
      it survives the round trip through `document.cookie`. */
  predicate ValidId(id: string)
  {
    id != "" && NoChar(id, ';')
  }

  lemma UserIdCookieWellFormed()
    ensures WellFormedName(USER_ID_COOKIE)
  {
  }

  /** Storing an id and reading it back gives the same id. */
  lemma WriteThenRead(jar: seq<Cookie>, id: string)
    requires ValidJar(jar) && ValidId(id)
    ensures ParseCookie(Serialise(Write(jar, USER_ID_COOKIE, id)), USER_ID_COOKIE) == Some(id)
  {
    UserIdCookieWellFormed();
    WriteValid(jar, USER_ID_COOKIE, id);
    ParseSerialised(Write(jar, USER_ID_COOKIE, id), USER_ID_COOKIE);
  }

  /** After the id cookie is expired, reading it gives nothing. */
  lemma RemoveThenRead(jar: seq<Cookie>)
    requires ValidJar(jar)
    ensures ParseCookie(Serialise(Remove(jar, USER_ID_COOKIE)), USER_ID_COOKIE) == None
  {
    UserIdCookieWellFormed();
    RemoveValid(jar, USER_ID_COOKIE);
    ParseSerialised(Remove(jar, USER_ID_COOKIE), USER_ID_COOKIE);
  }

  /** A cookie whose name merely ends with the searched name is not matched. */
  lemma LongerNameNotMatched(pre: string, v: string)
    requires pre != "" && WellFormedName(pre + USER_ID_COOKIE) && NoChar(v, ';')
    ensures ParseCookie(Serialise([Cookie(pre + USER_ID_COOKIE, v)]), USER_ID_COOKIE) == None
  {
    var jar := [Cookie(pre + USER_ID_COOKIE, v)];
    UserIdCookieWellFormed();
    assert Find(jar, USER_ID_COOKIE).None?;
    ParseSerialised(jar, USER_ID_COOKIE);
  }

  /** The anonymous-identity service over the browser's cookie jar.
      `hasWindow` is false when the code runs during server-side rendering. */
  class AuthService {
    const hasWindow: bool
    var cookies: seq<Cookie>

    predicate Valid()
      reads this
    {
      ValidJar(cookies)
    }

    constructor (hasWindow: bool, cookies: seq<Cookie>)
      requires ValidJar(cookies)
      ensures Valid() && this.hasWindow == hasWindow && this.cookies == cookies
    {
      this.hasWindow := hasWindow;
      this.cookies := cookies;
    }

    /** What `document.cookie` reads as. */
    function DocumentCookie(): string
      reads this
    {
      Serialise(cookies)
    }

    /** `getCookie(name)` (auth.ts:48-60). */
    function GetCookie(name: string): (r: Option<string>)
      reads this
      ensures !hasWindow ==> r == None
      ensures r.Some? ==> r.value != "" && NoChar(r.value, ';')
      ensures hasWindow && Valid() && WellFormedName(name) ==>
                r == match Lookup(cookies, name) case None => None case Some(v) => NonEmpty(v)
    {
      if !hasWindow then None
      else if ValidJar(cookies) && WellFormedName(name) then
        ParseSerialised(cookies, name);
        ParseCookie(DocumentCookie(), name)
      else ParseCookie(DocumentCookie(), name)
    }

    /** `setUserIdCookie(userId)` (auth.ts:35-43): the cookie line's
        name=value part is everything before the first ';'. */
    method SetUserIdCookie(userId: string)
      requires Valid()
      modifies this
      ensures Valid()
      ensures !hasWindow ==> cookies == old(cookies)
      ensures hasWindow ==> cookies == Write(old(cookies), USER_ID_COOKIE, Before(userId, ';'))
    {
      if !hasWindow {
        return;
      }
      UserIdCookieWellFormed();
      WriteValid(cookies, USER_ID_COOKIE, Before(userId, ';'));
      cookies := Write(cookies, USER_ID_COOKIE, Before(userId, ';'));
    }

    /** `getUserId()` (auth.ts:9-23); `generated` is what the UUID generator
        would return if it were called. */
    method GetUserId(generated: string) returns (userId: string)
      requires Valid()
      modifies this
      ensures Valid()
      ensures !hasWindow ==> userId == TEMP_USER && cookies == old(cookies)
      ensures hasWindow && old(GetCookie(USER_ID_COOKIE)).Some? ==>
                userId == old(GetCookie(USER_ID_COOKIE)).value && cookies == old(cookies)
      ensures hasWindow && old(GetCookie(USER_ID_COOKIE)).None? ==>
                userId == generated
                && cookies == Write(old(cookies), USER_ID_COOKIE, Before(generated, ';'))
      ensures hasWindow && (old(GetCookie(USER_ID_COOKIE)).Some? || ValidId(generated)) ==>
                GetCookie(USER_ID_COOKIE) == Some(userId)
    {
      if !hasWindow {
        return TEMP_USER;
      }
      var stored := GetCookie(USER_ID_COOKIE);
      if stored.None? {
        userId := generated;
        SetUserIdCookie(userId);
        if ValidId(generated) {
          UserIdCookieWellFormed();
          BeforeSemicolon(generated, "");
          assert generated + "" == generated;
          WriteValid(old(cookies), USER_ID_COOKIE, generated);
        }
      } else {
        userId := stored.value;
      }
    }

    /** `clearUserId()` (auth.ts:65-69): the cookie is set to expire in the
        past, so the browser drops it. */
    method ClearUserId()
      requires Valid()
      modifies this
      ensures Valid()
      ensures !hasWindow ==> cookies == old(cookies)
      ensures hasWindow ==> cookies == Remove(old(cookies), USER_ID_COOKIE)
      ensures GetCookie(USER_ID_COOKIE) == None
    {
      if !hasWindow {
        return;
      }
      RemoveValid(cookies, USER_ID_COOKIE);
      RemoveThenRead(cookies);
      cookies := Remove(cookies, USER_ID_COOKIE);
    }

    /** `isAuthenticated()` (auth.ts:74-77): it goes through `getUserId`, so
        it creates the id cookie when there is none. */
    method IsAuthenticated(generated: string) returns (authenticated: bool)
      requires Valid()
      modifies this
      ensures Valid()
      ensures !hasWindow ==> !authenticated && cookies == old(cookies)
      ensures hasWindow && old(GetCookie(USER_ID_COOKIE)).Some? ==>
                authenticated == (old(GetCookie(USER_ID_COOKIE)).value != TEMP_USER)
                && cookies == old(cookies)
      ensures hasWindow && old(GetCookie(USER_ID_COOKIE)).None? ==>
                authenticated == (generated != TEMP_USER)
                && cookies == Write(old(cookies), USER_ID_COOKIE, Before(generated, ';'))
    {
      var userId := GetUserId(generated);
      authenticated := userId != TEMP_USER;
    }
  }
}
