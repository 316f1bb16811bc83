/** Parsing and printing of URLs (RFC 3986 sections 3 and 5.3) as the Url class does them. */
module Url {
  const INVALID_PORT := -1

  // ---------------------------------------------------------------- strings

  /** The first position of `c`, or the length when it does not occur. */
  function Find(s: string, c: char): (i: nat)
    ensures i <= |s|
    ensures forall j | 0 <= j < i :: s[j] != c
    ensures i < |s| ==> s[i] == c
  {
    if s == "" || s[0] == c then 0 else 1 + Find(s[1..], c)
  }

  predicate SchemeEndsAt(s: string, i: nat)
  {
    i + 3 <= |s| && s[i] == ':' && s[i + 1] == '/' && s[i + 2] == '/'
  }

  /** The first position of "://", or the length when it does not occur. */
  function FindScheme(s: string): (i: nat)
    ensures i <= |s|
    ensures i < |s| ==> SchemeEndsAt(s, i)
    ensures forall j: nat | j < i :: !SchemeEndsAt(s, j)
  {
    if s == "" || SchemeEndsAt(s, 0) then 0
    else
      var i := FindScheme(s[1..]);
      assert forall j: nat | j < 1 + i :: j > 0 ==> SchemeEndsAt(s, j) == SchemeEndsAt(s[1..], j - 1);
      1 + i
  }

  function Before(s: string, i: nat): string requires i <= |s| { s[..i] }

  /** What follows position i, without the character there; nothing when i is the end. */
  function Behind(s: string, i: nat): string requires i <= |s| { if i < |s| then s[i + 1..] else "" }

  /** A delimiter not in `a` is found right after it. */
  lemma FindAfter(a: string, b: string, c: char)
    requires c !in a && (b != "" ==> b[0] == c)
    ensures Find(a + b, c) == |a|
    ensures Before(a + b, |a|) == a && Behind(a + b, |a|) == if b == "" then "" else b[1..]
  {
    var i := Find(a + b, c);
    assert b != "" ==> (a + b)[|a|] == c;
  }

  /** Delimiters are found past a prefix that does not hold them, and what is cut there keeps the prefix. */
  lemma FindPast(a: string, b: string, c: char)
    requires c !in a
    ensures Find(a + b, c) == |a| + Find(b, c)
    ensures (a + b)[..|a| + Find(b, c)] == a + b[..Find(b, c)]
    ensures Behind(a + b, |a| + Find(b, c)) == Behind(b, Find(b, c))
  {
    hide Find, Behind;
    var k := Find(b, c);
    NotBefore(a, b, k, c);
    FoundAt(a + b, |a| + k, c);
    CutPast(a, b, k);
  }

  lemma NotBefore(a: string, b: string, k: nat, c: char)
    requires c !in a && k <= |b| && forall j | 0 <= j < k :: b[j] != c
    ensures forall j | 0 <= j < |a| + k :: (a + b)[j] != c
    ensures k < |b| ==> (a + b)[|a| + k] == b[k]
  {
    assert forall j | 0 <= j < |a| :: a[j] in a;
  }

  lemma FoundAt(s: string, i: nat, c: char)
    requires i <= |s| && (forall j | 0 <= j < i :: s[j] != c) && (i < |s| ==> s[i] == c)
    ensures Find(s, c) == i
  {
    hide Find;
  }

  lemma CutPast(a: string, b: string, k: nat)
    requires k <= |b|
    ensures (a + b)[..|a| + k] == a + b[..k] && Behind(a + b, |a| + k) == Behind(b, k)
  {
  }

  function ToLower(c: char): char
  {
    if 'A' <= c <= 'Z' then (c as int + 32) as char else c
  }

  /** The 26 letters, and nothing else, change. */
  lemma ToLowerMeaning(c: char, i: nat)
    ensures i < 26 ==> ToLower("ABCDEFGHIJKLMNOPQRSTUVWXYZ"[i]) == "abcdefghijklmnopqrstuvwxyz"[i]
    ensures c !in "ABCDEFGHIJKLMNOPQRSTUVWXYZ" ==> ToLower(c) == c
  {
    var letters := "ABCDEFGHIJKLMNOPQRSTUVWXYZ";
    if 'A' <= c <= 'Z' {
      assert letters[c as int - 'A' as int] == c;
    }
  }

  function Lower(s: string): (r: string)
    ensures |r| == |s|
    ensures forall i | 0 <= i < |s| :: r[i] == ToLower(s[i])
  {
    seq(|s|, i requires 0 <= i < |s| => ToLower(s[i]))
  }

  predicate IsLower(s: string)
  {
    forall c <- s :: !('A' <= c <= 'Z')
  }

  lemma LowerOfLower(s: string)
    requires IsLower(s)
    ensures Lower(s) == s
  {
    assert forall i | 0 <= i < |s| :: s[i] in s;
  }

  lemma LowerIsLower(s: string, c: char)
    ensures IsLower(Lower(s))
    ensures !('A' <= c <= 'Z') && !('a' <= c <= 'z') ==> (c in Lower(s) <==> c in s)
  {
    if !('A' <= c <= 'Z') && !('a' <= c <= 'z') {
      if c in s {
        var i :| 0 <= i < |s| && s[i] == c;
        assert Lower(s)[i] == c;
      }
      if c in Lower(s) {
        var i :| 0 <= i < |s| && Lower(s)[i] == c;
        assert s[i] == c;
      }
    }
  }

  // ---------------------------------------------------------------- numbers

  predicate IsDigit(c: char) { '0' <= c <= '9' }

  predicate IsSpace(c: char) { c == ' ' || 9 <= c as int <= 13 }

  function Digits(s: string, acc: int): int
  {
    if s == "" || !IsDigit(s[0]) then acc else Digits(s[1..], acc * 10 + (s[0] as int - '0' as int))
  }

  /** The C library's atoi: blanks, an optional sign, then digits as far as they go. */
  function Atoi(s: string): int
  {
    if s == "" then 0
    else if IsSpace(s[0]) then Atoi(s[1..])
    else if s[0] == '-' then -Digits(s[1..], 0)
    else if s[0] == '+' then Digits(s[1..], 0)
    else Digits(s, 0)
  }

  function Decimal(n: nat): (s: string)
    ensures s != "" && forall c <- s :: IsDigit(c)
  {
    var d := [('0' as int + n % 10) as char];
    if n < 10 then d else Decimal(n / 10) + d
  }

  function PrintInt(n: int): string
  {
    if n < 0 then "-" + Decimal(-n) else Decimal(n)
  }

  lemma {:induction false} DigitsAppend(a: string, b: string, acc: int)
    requires forall c <- a :: IsDigit(c)
    ensures Digits(a + b, acc) == Digits(b, Digits(a, acc))
    decreases |a|
  {
    if a == "" {
      assert a + b == b;
    } else {
      assert a[0] in a && (a + b)[1..] == a[1..] + b;
      assert forall c <- a[1..] :: c in a;
      DigitsAppend(a[1..], b, acc * 10 + (a[0] as int - '0' as int));
    }
  }

  lemma {:induction false} DigitsOfDecimal(n: nat)
    ensures Digits(Decimal(n), 0) == n
  {
    var d := [('0' as int + n % 10) as char];
    if n >= 10 {
      DigitsOfDecimal(n / 10);
      DigitsAppend(Decimal(n / 10), d, 0);
      assert d[1..] == "";
    } else {
      assert d[1..] == "";
    }
  }

  lemma AtoiOfPrintInt(n: int)
    ensures Atoi(PrintInt(n)) == n
  {
    if n < 0 {
      DigitsOfDecimal(-n);
      assert PrintInt(n)[1..] == Decimal(-n);
    } else {
      DigitsOfDecimal(n);
      assert Decimal(n)[0] in Decimal(n);
    }
  }

  /** Blanks ahead, one sign and the digits count; whatever follows the digits does not. */
  lemma {:induction false} AtoiMeaning(blanks: string, sign: string, n: nat, rest: string)
    requires forall c <- blanks :: c == ' ' || 9 <= c as int <= 13
    requires sign in ["", "-", "+"] && (rest == "" || !('0' <= rest[0] <= '9'))
    ensures Atoi(blanks + (sign + (Decimal(n) + rest))) == if sign == "-" then -(n as int) else n
    decreases |blanks|
  {
    var digits := Decimal(n) + rest;
    var s := blanks + (sign + digits);
    hide Decimal;
    if blanks == "" {
      assert s == sign + digits;
      DigitsAppend(Decimal(n), rest, 0);
      DigitsOfDecimal(n);
      assert Decimal(n)[0] in Decimal(n) && digits[0] == Decimal(n)[0];
      if sign == "" {
        assert s == digits;
      } else {
        assert s[0] == sign[0] && s[1..] == digits;
      }
    } else {
      assert s[0] == blanks[0] && blanks[0] in blanks;
      assert s[1..] == blanks[1..] + (sign + digits);
      assert forall c <- blanks[1..] :: c in blanks;
      AtoiMeaning(blanks[1..], sign, n, rest);
    }
  }

  lemma PrintIntIsPlain(n: int, c: char)
    requires c in PrintInt(n)
    ensures c == '-' || IsDigit(c)
  {
  }

  // ---------------------------------------------------------------- parsing and printing

  datatype Parts = Parts(scheme: string, userName: string, password: string, host: string, path: string,
                         port: int, query: string, fragment: string)

  const EMPTY := Parts("", "", "", "", "", INVALID_PORT, "", "")

  predicate IsValid(u: Parts)
  {
    u != EMPTY && u.host != "" && (u.userName == "" ==> u.password == "")
  }

  function UserInfo(u: Parts): string
  {
    u.userName + if u.password != "" then ":" + u.password else ""
  }

  function Authority(u: Parts): string
  {
    (if UserInfo(u) != "" then UserInfo(u) + "@" else "") + u.host
      + if u.port != INVALID_PORT then ":" + PrintInt(u.port) else ""
  }

  function Query(u: Parts): string { if u.query != "" then "?" + u.query else "" }

  function Fragment(u: Parts): string { if u.fragment != "" then "#" + u.fragment else "" }

  /** Everything printed behind the scheme. */
  function Rest(u: Parts): string
  {
    ((Authority(u) + if u.path == "" then "/" else u.path) + Query(u)) + Fragment(u)
  }

  function Print(u: Parts): string
  {
    if !IsValid(u) then "" else (if u.scheme != "" then u.scheme + "://" else "") + Rest(u)
  }

  /** What stands before the first at sign of an authority. */
  function UserText(a: string): string
  {
    var at := Find(a, '@');
    if at < |a| then a[..at] else ""
  }

  /** What stands behind it, or everything. */
  function HostText(a: string): string
  {
    var at := Find(a, '@');
    if at < |a| then a[at + 1..] else a
  }

  /** User information and host with port, from an authority. */
  function ParseAuthority(u: Parts, a: string): Parts
  {
    var info, rest := UserText(a), HostText(a);
    var colon := Find(rest, ':');
    var port := Behind(rest, colon);
    var sep := Find(info, ':');
    u.(userName := info[..sep], password := Behind(info, sep), host := Lower(rest[..colon]),
       port := if port != "" then Atoi(port) else INVALID_PORT)
  }

  /** Authority and path, with query and fragment already cut off. */
  function ParseFront(scheme: string, front: string, query: string, fragment: string): Parts
  {
    var slash := Find(front, '/');
    var u := EMPTY.(scheme := Lower(scheme), fragment := fragment, query := query,
                    path := if slash < |front| then front[slash..] else "/");
    ParseAuthority(u, front[..slash])
  }

  /** Everything after the scheme: fragment, query and path are cut off in that order. */
  function ParseRest(scheme: string, s: string): Parts
  {
    var hash := Find(s, '#');
    var s1 := s[..hash];
    var mark := Find(s1, '?');
    ParseFront(scheme, s1[..mark], Behind(s1, mark), Behind(s, hash))
  }

  function Parse(s: string): Parts
  {
    if s == "" then EMPTY
    else
      var i := FindScheme(s);
      if i < |s| then ParseRest(s[..i], s[i + 3..]) else ParseRest("", s)
  }

  /** None of the characters that would end a component early. */
  predicate FreeOf(s: string, delimiters: string)
  {
    forall c <- delimiters :: c !in s
  }

  /** What parsing makes of any text, component by component. */
  predicate Shaped(u: Parts)
  {
    && IsLower(u.scheme) && IsLower(u.host)
    && FreeOf(u.userName, ":@/?#") && FreeOf(u.password, "@/?#") && FreeOf(u.host, ":/?#")
    && u.path != "" && u.path[0] == '/' && FreeOf(u.path, "?#") && FreeOf(u.query, "#")
  }

  /** An at sign in the host is told apart from the one that ends user information only behind the latter. */
  predicate AtSignsTold(u: Parts)
  {
    '@' in u.host ==> u.userName != ""
  }

  /** The first "://" of the printed form is the one behind the scheme, and there is none without a scheme. */
  predicate SchemeTold(u: Parts)
  {
    if u.scheme != "" then FindScheme(u.scheme + "://") == |u.scheme| else FindScheme(Rest(u)) == |Rest(u)|
  }

  /** A URL whose printed form is read back unchanged. */
  predicate Printable(u: Parts)
  {
    IsValid(u) && Shaped(u) && AtSignsTold(u) && SchemeTold(u)
  }

  lemma AuthorityIsFree(u: Parts, c: char)
    requires Shaped(u) && c in "/?#"
    ensures c !in Authority(u)
  {
    if c in Authority(u) {
      assert c in "@/?#" && c in ":@/?#" && c in ":/?#";
      if u.port != INVALID_PORT && c in PrintInt(u.port) {
        PrintIntIsPlain(u.port, c);
      }
      assert false;
    }
  }

  function PortText(u: Parts): string
  {
    if u.port != INVALID_PORT then ":" + PrintInt(u.port) else ""
  }

  lemma InfoIsRead(u: Parts)
    requires FreeOf(u.userName, ":@/?#") && (u.userName == "" ==> u.password == "")
    ensures var info := UserInfo(u);
      var sep := Find(info, ':');
      info[..sep] == u.userName && Behind(info, sep) == u.password
  {
    assert ':' in ":@/?#";
    FindAfter(u.userName, if u.password != "" then ":" + u.password else "", ':');
  }

  lemma HostIsRead(u: Parts)
    requires FreeOf(u.host, ":/?#")
    ensures var rest := u.host + PortText(u);
      var colon := Find(rest, ':');
      rest[..colon] == u.host && Behind(rest, colon) == if u.port != INVALID_PORT then PrintInt(u.port) else ""
  {
    hide PrintInt;
    assert ':' in ":/?#";
    FindAfter(u.host, PortText(u), ':');
    if u.port != INVALID_PORT {
      assert PortText(u)[1..] == PrintInt(u.port);
    }
  }

  lemma NoStrayAt(u: Parts)
    requires FreeOf(u.userName, ":@/?#") && FreeOf(u.password, "@/?#")
    ensures '@' !in UserInfo(u)
    ensures '@' in u.host + PortText(u) <==> '@' in u.host
  {
    assert '@' in ":@/?#" && '@' in "@/?#";
    if u.port != INVALID_PORT && '@' in PrintInt(u.port) {
      PrintIntIsPlain(u.port, '@');
    }
  }

  lemma AtIsFound(u: Parts)
    requires Shaped(u) && AtSignsTold(u)
    ensures UserText(Authority(u)) == UserInfo(u) && HostText(Authority(u)) == u.host + PortText(u)
  {
    NoStrayAt(u);
    AuthorityShape(u);
    assert u.userName != "" ==> UserInfo(u) != "";
    hide PortText, Find, Authority, UserInfo, Shaped;
    var info, rest := UserInfo(u), u.host + PortText(u);
    if info != "" {
      FindAfter(info, "@" + rest, '@');
      assert ("@" + rest)[1..] == rest;
    } else {
      FindAfter(rest, "", '@');
      assert rest + "" == rest;
    }
  }

  lemma AuthorityShape(u: Parts)
    ensures Authority(u) ==
      if UserInfo(u) != "" then UserInfo(u) + ("@" + (u.host + PortText(u))) else u.host + PortText(u)
  {
  }

  lemma AuthorityIsRead(u: Parts, v: Parts)
    requires Shaped(u) && AtSignsTold(u) && (u.userName == "" ==> u.password == "")
    ensures ParseAuthority(v, Authority(u))
         == v.(userName := u.userName, password := u.password, host := u.host, port := u.port)
  {
    hide PrintInt, Authority, UserInfo, PortText, Lower, FreeOf, UserText, HostText, Atoi, Find;
    AtIsFound(u);
    InfoIsRead(u);
    HostIsRead(u);
    LowerOfLower(u.host);
    if u.port != INVALID_PORT {
      AtoiOfPrintInt(u.port);
      PrintIntNotEmpty(u.port);
    }
  }

  lemma PrintIntNotEmpty(n: int)
    ensures PrintInt(n) != ""
  {
  }

  /** Without user information an at sign in the host is taken for the end of some. */
  lemma StrayAtIsMisread(u: Parts, v: Parts)
    requires Shaped(u) && !AtSignsTold(u) && u.password == ""
    ensures var w := ParseAuthority(v, Authority(u)); w.userName != u.userName || w.host != u.host
  {
    assert ':' in ":/?#";
    assert Authority(u) == u.host + PortText(u);
    StrayAtIsCut(u.host, PortText(u), v);
  }

  lemma StrayAtIsCut(host: string, port: string, v: Parts)
    requires '@' in host && ':' !in host && (port != "" ==> port[0] == ':')
    ensures var w := ParseAuthority(v, host + port); w.userName != "" || w.host != host
  {
    hide Atoi, Lower, Find;
    var a := host + port;
    var i :| 0 <= i < |host| && host[i] == '@';
    assert a[i] == '@';
    var at := Find(a, '@');
    if at == 0 {
      var tail := host[1..];
      assert HostText(a) == tail + port;
      assert forall c <- tail :: c in host;
      FindAfter(tail, port, ':');
    } else {
      var info := UserText(a);
      assert info == host[..at] && forall c <- info :: c in host;
      FindAfter(info, "", ':');
      assert info + "" == info;
    }
  }

  function Cut(u: Parts): Parts
  {
    EMPTY.(scheme := u.scheme, fragment := u.fragment, query := u.query, path := u.path)
  }

  /** What is printed behind the scheme is cut at the delimiters it was put together with. */
  lemma RestIsCut(u: Parts)
    requires Shaped(u)
    ensures ParseRest(u.scheme, Rest(u)) == ParseAuthority(Cut(u), Authority(u))
  {
    hide Authority, ParseAuthority;
    var a, p, q, f := Authority(u), u.path, Query(u), Fragment(u);
    assert '#' in "/?#" && '?' in "/?#" && '/' in "/?#";
    AuthorityIsFree(u, '#');
    AuthorityIsFree(u, '?');
    AuthorityIsFree(u, '/');
    assert '#' in "?#" && '?' in "?#" && '#' in "#";
    FindAfter((a + p) + q, f, '#');
    FindAfter(a + p, q, '?');
    FindAfter(a, p, '/');
    assert (a + p)[|a|..] == p;
    LowerOfLower(u.scheme);
  }

  lemma RestIsRead(u: Parts)
    requires Shaped(u) && AtSignsTold(u) && (u.userName == "" ==> u.password == "")
    ensures ParseRest(u.scheme, Rest(u)) == u
  {
    RestIsCut(u);
    AuthorityIsRead(u, Cut(u));
  }

  lemma SchemeIsFound(u: Parts)
    requires IsValid(u) && Shaped(u) && SchemeTold(u)
    ensures Parse(Print(u)) == ParseRest(u.scheme, Rest(u))
  {
    RestStart(u);
    hide ParseRest, FindScheme, Rest, IsValid, Shaped;
    if u.scheme != "" {
      SchemeBefore(u.scheme, Rest(u));
    } else {
      assert Print(u) == Rest(u);
    }
  }

  /** With nothing like "://" ahead of it, the end of the scheme is found whatever follows. */
  lemma SchemeBefore(scheme: string, rest: string)
    requires FindScheme(scheme + "://") == |scheme|
    ensures var s := (scheme + "://") + rest;
      FindScheme(s) == |scheme| && s[..|scheme|] == scheme && s[|scheme| + 3..] == rest
  {
    hide FindScheme;
    var t := scheme + "://";
    var s := t + rest;
    assert SchemeEndsAt(s, |scheme|);
    forall j: nat | j < |scheme|
      ensures !SchemeEndsAt(s, j)
    {
      assert !SchemeEndsAt(t, j);
    }
  }

  /** A "://" before the intended one, or one without a scheme, changes the scheme that is read. */
  lemma SchemeIsMissed(u: Parts)
    requires IsValid(u) && Shaped(u) && !SchemeTold(u)
    ensures Parse(Print(u)).scheme != u.scheme
  {
    RestStart(u);
    hide ParseAuthority, Lower, Shaped, FindScheme, Rest, IsValid;
    var s := Print(u);
    if u.scheme != "" {
      var t := u.scheme + "://";
      assert s == t + Rest(u);
      assert SchemeEndsAt(t, |u.scheme|);
      var i := FindScheme(t);
      assert i < |u.scheme| && SchemeEndsAt(s, i);
      SchemeOfParse(s);
    } else {
      assert s == Rest(u);
      assert !SchemeEndsAt(s, 0);
      SchemeOfParse(s);
    }
  }

  lemma SchemeOfParse(s: string)
    requires s != ""
    ensures Parse(s).scheme == if FindScheme(s) < |s| then Lower(s[..FindScheme(s)]) else ""
  {
    hide FindScheme, Find, Atoi, Lower;
    NothingLowered();
  }

  lemma NothingLowered()
    ensures Lower("") == ""
  {
  }

  lemma RestStart(u: Parts)
    requires IsValid(u) && Shaped(u)
    ensures Rest(u) != "" && Rest(u)[0] != ':'
  {
    assert ':' in ":@/?#" && ':' in ":/?#";
    assert u.userName != "" ==> Rest(u)[0] == u.userName[0] && u.userName[0] in u.userName;
    assert u.userName == "" ==> Rest(u)[0] == u.host[0] && u.host[0] in u.host;
  }

  /** Printing a URL and parsing the text gives the URL back exactly when the URL is empty or printable. */
  lemma PrintThenParse(u: Parts)
    ensures Parse(Print(u)) == u <==> u == EMPTY || Printable(u)
  {
    hide ParseAuthority, Rest, FreeOf, Shaped;
    if IsValid(u) {
      if Shaped(u) {
        if SchemeTold(u) {
          SchemeIsFound(u);
          if AtSignsTold(u) {
            RestIsRead(u);
          } else {
            RestIsCut(u);
            StrayAtIsMisread(u, Cut(u));
          }
        } else {
          SchemeIsMissed(u);
        }
      } else {
        ParsedIsShaped(Print(u));
      }
    }
  }

  lemma ParsedIsShaped(s: string)
    ensures Parse(s) == EMPTY || Shaped(Parse(s))
    ensures Parse(s) == EMPTY <==> s == ""
  {
    hide FindScheme, ParseRest, Shaped;
    if s != "" {
      var i := FindScheme(s);
      RestParts(if i < |s| then s[..i] else "", if i < |s| then s[i + 3..] else s);
      assert Shaped(Parse(s));
      ShapedIsNotEmpty(Parse(s));
    }
  }

  lemma ShapedIsNotEmpty(u: Parts)
    requires Shaped(u)
    ensures u != EMPTY
  {
  }

  /** Lowering a scheme moves no "://". */
  lemma ParsedSchemeIsTold(s: string)
    requires s != "" && Parse(s).scheme != ""
    ensures SchemeTold(Parse(s))
  {
    SchemeOfParse(s);
    LoweredScheme(s);
    hide Parse, FindScheme, Find, Lower;
  }

  lemma LoweredScheme(s: string)
    requires FindScheme(s) < |s|
    ensures FindScheme(Lower(s[..FindScheme(s)]) + "://") == FindScheme(s)
  {
    hide FindScheme, Lower;
    var i := FindScheme(s);
    var t := Lower(s[..i]) + "://";
    forall j: nat | j < i
      ensures !SchemeEndsAt(t, j)
    {
      assert !SchemeEndsAt(s, j);
      SchemeLowered(s, i, j);
    }
    SchemeFoundAt(t, i);
  }

  lemma SchemeFoundAt(t: string, i: nat)
    requires i + 3 == |t| && t[i..] == "://" && forall j: nat | j < i :: !SchemeEndsAt(t, j)
    ensures FindScheme(t) == i
  {
    hide FindScheme;
    assert t[i..][0] == ':' && t[i..][1] == '/' && t[i..][2] == '/';
    assert SchemeEndsAt(t, i);
  }

  lemma SchemeLowered(s: string, i: nat, j: nat)
    requires j < i && SchemeEndsAt(s, i)
    ensures SchemeEndsAt(Lower(s[..i]) + "://", j) == SchemeEndsAt(s, j)
  {
    hide Lower;
    var l := Lower(s[..i]);
    assert l[j] == ToLower(s[j]);
    assert j + 1 < i ==> l[j + 1] == ToLower(s[j + 1]);
    assert j + 2 < i ==> l[j + 2] == ToLower(s[j + 2]);
  }

  /** Which parsed URLs are printable: parsing itself establishes every other condition. */
  lemma ParsedIsPrintable(s: string)
    ensures var u := Parse(s);
      Printable(u) <==> IsValid(u) && AtSignsTold(u) && (u.scheme == "" ==> SchemeTold(u))
  {
    hide Parse, Shaped, AtSignsTold, SchemeTold;
    var u := Parse(s);
    ParsedIsShaped(s);
    if u.scheme != "" {
      ParsedSchemeIsTold(s);
    }
  }

  /**
   For every text: parsing what is printed for the parsed URL changes nothing exactly when the
   text is empty, or the URL is valid, an at sign in its host comes behind a user name, and
   without a scheme no "://" is printed.
   */
  lemma ParsePrintParse(s: string)
    ensures var u := Parse(s);
      Parse(Print(u)) == u <==>
        s == "" || (IsValid(u) && AtSignsTold(u) && (u.scheme == "" ==> SchemeTold(u)))
  {
    hide Parse, Print, Shaped, AtSignsTold, SchemeTold;
    ParsedIsShaped(s);
    ParsedIsPrintable(s);
    PrintThenParse(Parse(s));
  }

  // ---------------------------------------------------------------- texts without a path

  /** What stands behind a text without delimiters is query and fragment; the text is authority and path. */
  lemma TextBehind(scheme: string, x: string, r: string)
    requires '#' !in x && '?' !in x && (r == "" || r[0] == '?' || r[0] == '#')
    ensures var h := Find(r, '#');
      ParseRest(scheme, x + r) == ParseFront(scheme, x, Behind(r[..h], 0), Behind(r, h))
  {
    hide ParseFront, Find, Behind;
    var front := r[..Find(r, '#')];
    FindPast(x, r, '#');
    FindPast(x, front, '?');
    assert front == "" || front[0] == r[0];
    FoundAt(front, 0, '?');
    assert front[..0] == "" && x + "" == x;
  }

  /** Behind an authority a missing path reads as "/", in front of a query or a fragment too. */
  lemma NoPathIsRoot(scheme: string, a: string, r: string)
    requires FreeOf(a, "/?#") && (r == "" || r[0] == '?' || r[0] == '#')
    ensures ParseRest(scheme, a + r) == ParseRest(scheme, (a + "/") + r)
    ensures ParseRest(scheme, a + r).path == "/"
  {
    hide ParseRest, ParseFront, Find, Behind;
    assert '#' in "/?#" && '?' in "/?#" && '/' in "/?#";
    assert '#' !in a && '?' !in a && '/' !in a;
    hide FreeOf;
    TextBehind(scheme, a, r);
    TextBehind(scheme, a + "/", r);
    FrontWithoutPath(scheme, a, Behind(r[..Find(r, '#')], 0), Behind(r, Find(r, '#')));
  }

  lemma FrontWithoutPath(scheme: string, a: string, query: string, fragment: string)
    requires '/' !in a
    ensures ParseFront(scheme, a, query, fragment) == ParseFront(scheme, a + "/", query, fragment)
    ensures ParseFront(scheme, a, query, fragment).path == "/"
  {
    hide Lower, UserText, HostText, Atoi, Find;
    FindAfter(a, "", '/');
    FindAfter(a, "/", '/');
    assert a + "" == a && (a + "/")[|a|..] == "/";
  }

  /** A text without a path is read as the same text with the path "/", and so is its path. */
  lemma PathlessIsRoot(scheme: string, a: string, r: string)
    requires FindScheme(scheme + "://") == |scheme|
    requires FreeOf(a, "/?#") && (r == "" || r[0] == '?' || r[0] == '#')
    ensures Parse((scheme + "://") + (a + r)) == Parse((scheme + "://") + ((a + "/") + r))
    ensures Parse((scheme + "://") + (a + r)).path == "/"
  {
    hide ParseRest, FindScheme, FreeOf;
    SchemeBefore(scheme, a + r);
    SchemeBefore(scheme, (a + "/") + r);
    NoPathIsRoot(scheme, a, r);
  }

  /** The same without a scheme. */
  lemma PathlessWithoutScheme(a: string, r: string)
    requires a + r != "" && FindScheme(a + r) == |a + r|
    requires FreeOf(a, "/?#") && (r == "" || r[0] == '?' || r[0] == '#')
    ensures Parse(a + r) == Parse((a + "/") + r) && Parse(a + r).path == "/"
  {
    var s, t := a + r, (a + "/") + r;
    assert '/' in "/?#";
    assert '/' !in a;
    hide ParseRest, FindScheme, FreeOf;
    SlashAdded(a, r);
    NoPathIsRoot("", a, r);
  }

  /** A slash put between an authority and what follows makes no "://" of its own. */
  lemma SlashAdded(a: string, r: string)
    requires '/' !in a && (r == "" || r[0] != '/') && forall j: nat :: !SchemeEndsAt(a + r, j)
    ensures forall j: nat :: !SchemeEndsAt((a + "/") + r, j)
  {
    var s, t := a + r, (a + "/") + r;
    assert forall j | 0 <= j < |a| :: t[j] == a[j] && a[j] in a;
    assert forall j | 0 <= j < |r| :: t[|a| + 1 + j] == r[j] && s[|a| + j] == r[j];
    assert forall j: nat :: SchemeEndsAt(t, j) ==> j + 1 >= |a| && j != |a|;
    assert forall j: nat :: SchemeEndsAt(t, j) && j > |a| ==> SchemeEndsAt(s, j - 1);
  }

  // ---------------------------------------------------------------- texts and parts spelled out

  /** A URL without a host, or with a password and no user name, prints as nothing; no path prints as "/". */
  lemma PrintsNothing(u: Parts)
    ensures Print(u) == "" <==> u.host == "" || (u.userName == "" && u.password != "")
    ensures Print(u.(path := "")) == Print(u.(path := "/"))
  {
    hide UserInfo, PrintInt;
    assert Authority(u) == "" ==> u.host == "";
    var v, w := u.(path := ""), u.(path := "/");
    assert UserInfo(v) == UserInfo(w) by { SameInfo(v, w); }
    assert Authority(v) == Authority(w);
  }

  lemma SameInfo(v: Parts, w: Parts)
    requires v.userName == w.userName && v.password == w.password
    ensures UserInfo(v) == UserInfo(w)
  {
  }

  /** One URL with every part, and one with a port of four digits. */
  lemma FullExample()
    ensures var u := Parts("s", "u", "p", "h", "/", 8, "q", "f");
      Print(u) == "s://u:p@h:8/?q#f" && Parse("s://u:p@h:8/?q#f") == u
    ensures PrintInt(8080) == "8080"
  {
    var u := Parts("s", "u", "p", "h", "/", 8, "q", "f");
    PortExample();
    FullIsPrintable(u);
    FullIsPrinted(u);
    hide Print, Parse, Printable, PrintInt;
    PrintThenParse(u);
  }

  lemma PortExample()
    ensures PrintInt(8080) == "8080" && PrintInt(8) == "8"
  {
    assert Decimal(8) == "8";
    assert Decimal(80) == "80";
    assert Decimal(808) == "808";
    assert Decimal(8080) == "8080";
  }

  lemma FullIsPrinted(u: Parts)
    requires u == Parts("s", "u", "p", "h", "/", 8, "q", "f")
    ensures Print(u) == "s://u:p@h:8/?q#f"
  {
    hide PrintInt, Authority, Rest;
    PortExample();
    FullAuthority(u);
    assert Rest(u) == "u:p@h:8/?q#f" by { FullRest(u); }
  }

  lemma FullAuthority(u: Parts)
    requires u == Parts("s", "u", "p", "h", "/", 8, "q", "f")
    ensures Authority(u) == "u:p@h:8"
  {
    hide PrintInt;
    PortExample();
    assert UserInfo(u) == "u:p";
  }

  lemma FullRest(u: Parts)
    requires u == Parts("s", "u", "p", "h", "/", 8, "q", "f")
    ensures Rest(u) == "u:p@h:8/?q#f"
  {
    hide Authority;
    FullAuthority(u);
    assert Query(u) == "?q" && Fragment(u) == "#f";
    hide Query, Fragment;
    assert "u:p@h:8" + "/" == "u:p@h:8/";
    assert "u:p@h:8/" + "?q" == "u:p@h:8/?q";
  }

  lemma FullIsPrintable(u: Parts)
    requires u == Parts("s", "u", "p", "h", "/", 8, "q", "f")
    ensures Printable(u)
  {
    assert Shaped(u);
    hide Shaped, FindScheme;
    var t := "s" + "://";
    assert SchemeEndsAt(t, 1) && !SchemeEndsAt(t, 0);
    assert FindScheme(t) == 1;
  }

  /** An authority that ends in a colon has no port. */
  lemma EmptyPort(u: Parts, host: string)
    requires ':' !in host && '@' !in host
    ensures ParseAuthority(u, host + ":") == ParseAuthority(u, host)
    ensures ParseAuthority(u, host).port == -1
  {
    hide Lower, Atoi;
    FindAfter(host, ":", ':');
    FindAfter(host, "", ':');
    FindAfter(host, "", '@');
    FindAfter(host + ":", "", '@');
    assert host + "" == host && (host + ":") + "" == host + ":";
    assert Find("", ':') == 0;
  }

  /** An at sign in the host survives behind user information and not without it. */
  lemma AtSignExamples()
    ensures Parse(Print(Parse("h://a@b@c/"))) == Parse("h://a@b@c/")
    ensures Parse(Print(Parse("h://@b@c/"))) != Parse("h://@b@c/")
  {
    hide Print, Parse;
    assert "h://a@b@c/" == "h://" + ("a" + "@b@c/") && "h://@b@c/" == "h://" + ("" + "@b@c/");
    AtSignExample("a");
    AtSignExample("");
  }

  lemma AtSignExample(user: string)
    requires forall c <- user :: c !in ":@/?#"
    ensures var s := "h://" + (user + "@b@c/");
      Parse(Print(Parse(s))) == Parse(s) <==> user != ""
  {
    hide Print, Parse, SchemeTold;
    TwoAtSigns(user);
    assert "b@c"[1] == '@';
    ParsePrintParse("h://" + (user + "@b@c/"));
  }

  lemma TwoAtSigns(user: string)
    requires forall c <- user :: c !in ":@/?#"
    ensures Parse("h://" + (user + "@b@c/")) == EMPTY.(scheme := "h", userName := user, host := "b@c", path := "/")
  {
    hide Atoi, Lower, Find, FindScheme;
    var rest, a := user + "@b@c/", user + "@b@c";
    var s := "h://" + rest;
    assert SchemeEndsAt(s, 1) && !SchemeEndsAt(s, 0);
    assert FindScheme(s) == 1 && s[1 + 3..] == rest && s[..1] == "h";
    FindAfter(rest, "", '#');
    FindAfter(rest, "", '?');
    assert rest + "" == rest && a + "/" == rest;
    FindAfter(a, "/", '/');
    LowerOfLower("h");
    TwoAtSignsInAuthority(user);
  }

  lemma TwoAtSignsInAuthority(user: string)
    requires forall c <- user :: c !in ":@/?#"
    ensures forall u ::
      ParseAuthority(u, user + "@b@c") == u.(userName := user, password := "", host := "b@c", port := INVALID_PORT)
  {
    hide Atoi, Lower, Find;
    FindAfter(user, "@b@c", '@');
    assert "@b@c"[1..] == "b@c";
    FindAfter("b@c", "", ':');
    FindAfter(user, "", ':');
    assert "b@c" + "" == "b@c" && user + "" == user;
    LowerOfLower("b@c");
  }

  lemma RestParts(scheme: string, s: string)
    ensures Shaped(ParseRest(scheme, s))
  {
    hide ParseAuthority, Lower;
    LowerIsLower(scheme, ':');
    var s1 := s[..Find(s, '#')];
    var s2 := s1[..Find(s1, '?')];
    var a := s2[..Find(s2, '/')];
    assert '#' !in s1 && '#' !in s2 && '?' !in s2;
    assert '#' !in a && '?' !in a && '/' !in a;
    var u := EMPTY.(scheme := Lower(scheme), fragment := Behind(s, Find(s, '#')), query := Behind(s1, Find(s1, '?')),
                    path := if Find(s2, '/') < |s2| then s2[Find(s2, '/')..] else "/");
    AuthorityParts(u, a);
    assert ParseRest(scheme, s) == ParseAuthority(u, a);
    FreeOfQuery(u.path, u.query);
  }

  lemma FreeOfQuery(path: string, query: string)
    requires '?' !in path && '#' !in path && '#' !in query
    ensures FreeOf(path, "?#") && FreeOf(query, "#")
  {
  }

  lemma AuthorityParts(u: Parts, a: string)
    requires '#' !in a && '?' !in a && '/' !in a
    ensures var v := ParseAuthority(u, a);
      && v == u.(userName := v.userName, password := v.password, host := v.host, port := v.port)
      && IsLower(v.host)
      && FreeOf(v.userName, ":@/?#") && FreeOf(v.password, "@/?#") && FreeOf(v.host, ":/?#")
  {
    hide Atoi, Lower;
    var info, rest := UserText(a), HostText(a);
    var host := rest[..Find(rest, ':')];
    assert '@' !in info && forall c <- info :: c in a;
    assert ':' !in host && forall c <- host :: c in a;
    LowerIsLower(host, ':');
    LowerIsLower(host, '/');
    LowerIsLower(host, '?');
    LowerIsLower(host, '#');
    assert ':' !in info[..Find(info, ':')];
  }

  // ---------------------------------------------------------------- the object

  /** Authorities with user information but no password in it leave an old password standing. */
  predicate KeepsPassword(authority: string)
  {
    var at := Find(authority, '@');
    0 < at < |authority| && Find(authority[..at], ':') == at
  }

  lemma KeptPasswordIsEmpty(u: Parts, authority: string)
    ensures KeepsPassword(authority) ==> ParseAuthority(u, authority).password == ""
  {
  }

  class Url {
    var scheme: string
    var userName: string
    var password: string
    var host: string
    var path: string
    var port: int
    var query: string
    var fragment: string

    function View(): Parts
      reads this
    {
      Parts(scheme, userName, password, host, path, port, query, fragment)
    }

    constructor (url: string)
      ensures View() == Parse(url)
    {
      scheme, userName, password, host, path, port, query, fragment := "", "", "", "", "", INVALID_PORT, "", "";
      new;
      if url != "" {
        FromString(url);
      }
    }

    method Clear()
      modifies this
      ensures View() == EMPTY
    {
      scheme, userName, password, host, path, port, query, fragment := "", "", "", "", "", INVALID_PORT, "", "";
    }

    /** Without a colon the password keeps its old value. */
    method SetUserInfo(info: string)
      modifies this
      ensures var sep := Find(info, ':');
        View() == old(View()).(userName := info[..sep],
                               password := if info == "" || sep < |info| then Behind(info, sep) else old(password))
    {
      var sep := Find(info, ':');
      if info == "" {
        userName, password := "", "";
      } else if sep == |info| {
        userName := info;
      } else {
        userName, password := info[..sep], info[sep + 1..];
      }
    }

    method SetAuthority(authority: string)
      modifies this
      ensures var u := ParseAuthority(old(View()), authority);
        View() == if KeepsPassword(authority) then u.(password := old(password)) else u
    {
      hide Atoi, Lower, Find;
      var info, rest := "", authority;
      var at := Find(authority, '@');
      if at < |authority| {
        info, rest := authority[..at], authority[at + 1..];
      }
      var colon := Find(rest, ':');
      var portText := "";
      if colon < |rest| {
        portText := rest[colon + 1..];
      }
      SetUserInfo(info);
      host := Lower(rest[..colon]);
      port := if portText != "" then Atoi(portText) else INVALID_PORT;
    }

    /** Cuts the text up from both ends and sets every component from the pieces. */
    method FromString(url: string)
      modifies this
      ensures View() == Parse(url)
    {
      hide ParseAuthority, Lower, Find, FindScheme, Atoi;
      Clear();
      if url == "" {
        return;
      }
      var schemeText, str, queryText, fragmentText := "", url, "", "";
      var pos := FindScheme(str);
      if pos < |str| {
        schemeText, str := str[..pos], str[pos + 3..];
      }
      ghost var all := str;
      str, fragmentText := CutAt(str, '#');
      str, queryText := CutAt(str, '?');
      pos := Find(str, '/');
      scheme := Lower(schemeText);
      path := if pos < |str| then str[pos..] else "/";
      query, fragment := queryText, fragmentText;
      KeptPasswordIsEmpty(View(), str[..pos]);
      SetAuthority(str[..pos]);
      assert View() == ParseRest(schemeText, all);
    }

    /** Erases a delimiter and what follows it, and hands back what followed. */
    static method CutAt(str: string, c: char) returns (front: string, cut: string)
      ensures front == str[..Find(str, c)] && cut == Behind(str, Find(str, c))
    {
      hide Find;
      front, cut := str, "";
      var pos := Find(str, c);
      if pos < |str| {
        cut := str[pos + 1..];
        front := str[..pos];
      }
    }

    function ToString(): string
      reads this
    {
      Print(View())
    }
  }
}
