/** The acceptance rules of `java.net.URI.create(String)` (the RFC 2396 grammar as
    `java.net.URI`'s parser applies it, with its documented deviations) and the
    components it splits a URI reference into. A string the parser rejects is `None`,
    where Java throws `IllegalArgumentException`. */
module JavaUri {
  import opened Wrappers

  predicate IsAlpha(c: char) { 'a' <= c <= 'z' || 'A' <= c <= 'Z' }

  predicate IsAsciiDigit(c: char) { '0' <= c <= '9' }

  predicate IsAlphanum(c: char) { IsAlpha(c) || IsAsciiDigit(c) }

  predicate IsHex(c: char) { IsAsciiDigit(c) || 'a' <= c <= 'f' || 'A' <= c <= 'F' }

  /** `mark` of RFC 2396. */
  predicate IsMark(c: char)
  {
    c == '-' || c == '_' || c == '.' || c == '!' || c == '~' || c == '*' || c == '\'' || c == '(' || c == ')'
  }

  predicate IsUnreserved(c: char) { IsAlphanum(c) || IsMark(c) }

  /** `reserved` of RFC 2396 with the `[` and `]` that RFC 2732 adds. */
  predicate IsReserved(c: char)
  {
    c == ';' || c == '/' || c == '?' || c == ':' || c == '@' || c == '&' || c == '='
    || c == '+' || c == '$' || c == ',' || c == '[' || c == ']'
  }

  /** `Character.isSpaceChar`: the Unicode space, line and paragraph separators. */
  predicate IsSpaceChar(c: char)
  {
    c == ' ' || c == '\U{00A0}' || c == '\U{1680}' || ('\U{2000}' <= c <= '\U{200A}')
    || c == '\U{2028}' || c == '\U{2029}' || c == '\U{202F}' || c == '\U{205F}' || c == '\U{3000}'
  }

  /** `Character.isISOControl`. */
  predicate IsIsoControl(c: char) { c <= '\U{001F}' || ('\U{007F}' <= c <= '\U{009F}') }

  /** The "other" characters the parser lets through unescaped: above U+0080, visible,
      neither a space nor a control character. */
  predicate IsOther(c: char) { c as int > 128 && !IsSpaceChar(c) && !IsIsoControl(c) }

  predicate IsSchemeChar(c: char) { IsAlphanum(c) || c == '+' || c == '-' || c == '.' }

  /** `scheme = alpha *( alpha | digit | "+" | "-" | "." )`. */
  predicate IsScheme(s: string)
  {
    s != [] && IsAlpha(s[0]) && forall i :: 0 <= i < |s| ==> IsSchemeChar(s[i])
  }

  /** The character classes the parser checks components against. */
  datatype Component = RegName | PathText | UricText

  /** The characters a component admits as they stand (escapes and "other" characters aside). */
  predicate Admits(k: Component, c: char)
  {
    match k
    case RegName =>
      IsUnreserved(c) || c == '$' || c == ',' || c == ';' || c == ':' || c == '@' || c == '&' || c == '=' || c == '+'
    case PathText =>
      IsUnreserved(c) || c == ':' || c == '@' || c == '&' || c == '=' || c == '+' || c == '$' || c == ',' || c == ';' || c == '/'
    case UricText => IsReserved(c) || IsUnreserved(c)
  }

  /** `checkChars` over a whole component: every character admitted, an "other" character,
      or the start of an escape `%` hex hex; a `%` not followed by two hex digits is a
      malformed escape pair. */
  predicate Valid(k: Component, s: string)
    decreases |s|
  {
    if s == [] then true
    else if Admits(k, s[0]) || IsOther(s[0]) then Valid(k, s[1..])
    else s[0] == '%' && |s| >= 3 && IsHex(s[1]) && IsHex(s[2]) && Valid(k, s[3..])
  }

  /** What follows the scheme: an opaque part (`mailto:x`) or a hierarchical part with an
      optional authority (`Some([])` for `//` with nothing between it and the path), a path
      and an optional query. */
  datatype Body =
    | Opaque(part: string)
    | Hierarchy(authority: Option<string>, path: string, query: Option<string>)

  /** Every component of the body is made of the characters its class admits. */
  predicate BodyWellFormed(b: Body)
  {
    match b
    case Opaque(part) => part != [] && Valid(UricText, part)
    case Hierarchy(authority, path, query) =>
      (authority.Some? ==> Valid(RegName, authority.value))
      && Valid(PathText, path)
      && (query.Some? ==> Valid(UricText, query.value))
  }

  datatype Uri = Uri(scheme: Option<string>, body: Body, fragment: Option<string>)
  {
    /** Every component is made of the characters its class admits. */
    predicate WellFormed()
    {
      (scheme.Some? ==> IsScheme(scheme.value))
      && (fragment.Some? ==> Valid(UricText, fragment.value))
      && BodyWellFormed(body)
    }
  }

  function SchemePrefix(scheme: Option<string>): string
  {
    if scheme.Some? then scheme.value + ":" else ""
  }

  function RenderBody(b: Body): string
  {
    match b
    case Opaque(part) => part
    case Hierarchy(authority, path, query) =>
      (if authority.Some? then "//" + authority.value else "")
      + path
      + (if query.Some? then "?" + query.value else "")
  }

  /** The text of a URI from its components (what `toString` gives for a parsed URI). */
  function Render(u: Uri): string
  {
    SchemePrefix(u.scheme) + RenderBody(u.body) + (if u.fragment.Some? then "#" + u.fragment.value else "")
  }

  /** The delimiters that end a component: the authority ends at `/`, `?` or `#`, the path at
      `?` or `#`, the query and the opaque part at `#`. */
  datatype Stops = AuthorityEnd | PathEnd | FragmentStart

  predicate IsStop(k: Stops, c: char)
  {
    match k
    case AuthorityEnd => c == '/' || c == '?' || c == '#'
    case PathEnd => c == '?' || c == '#'
    case FragmentStart => c == '#'
  }

  /** The position of the first character of `s` that ends the component, or `|s|`. */
  function ScanTo(s: string, k: Stops): (n: nat)
    ensures n <= |s|
    ensures n < |s| ==> IsStop(k, s[n])
  {
    if s == [] || IsStop(k, s[0]) then 0 else 1 + ScanTo(s[1..], k)
  }

  /** The scheme's `:`: its position when a `:` comes before any `/`, `?` or `#`, otherwise -1. */
  function SchemeColon(s: string): (r: int)
    ensures -1 <= r < |s|
    ensures r >= 0 ==> s[r] == ':'
  {
    if s == [] then -1
    else if s[0] == ':' then 0
    else if s[0] == '/' || s[0] == '?' || s[0] == '#' then -1
    else
      var r := SchemeColon(s[1..]);
      if r < 0 then -1 else r + 1
  }

  /** `new URI(s)`. */
  function Parse(s: string): Option<Uri>
  {
    var p := SchemeColon(s);
    if p < 0 then
      var h :- HierPart(s);
      Finish(None, h.0, h.1)
    else if p == 0 || !IsScheme(s[..p]) then None
    else SchemeSpecific(s[..p], s[p + 1..])
  }

  /** After `scheme:`, a `/` starts a hierarchical part; anything else up to `#` is the
      opaque part, which must not be empty. */
  function SchemeSpecific(scheme: string, t: string): Option<Uri>
  {
    if t != [] && t[0] == '/' then
      var h :- HierPart(t);
      Finish(Some(scheme), h.0, h.1)
    else
      var q := ScanTo(t, FragmentStart);
      if q == 0 || !Valid(UricText, t[..q]) then None
      else Finish(Some(scheme), Opaque(t[..q]), t[q..])
  }

  /** The optional `#fragment`, which must reach the end of the input. */
  function Finish(scheme: Option<string>, body: Body, rest: string): Option<Uri>
  {
    if rest == [] then Some(Uri(scheme, body, None))
    else if rest[0] == '#' && Valid(UricText, rest[1..]) then Some(Uri(scheme, body, Some(rest[1..])))
    else None
  }

  /** `parseHierarchical`: an optional `//authority`, then the path and the query. An empty
      authority is allowed only when something follows it. A server-based or registry-based
      authority is accepted when all its characters are `reg_name` characters. */
  function HierPart(s: string): Option<(Body, string)>
  {
    if |s| >= 2 && s[0] == '/' && s[1] == '/' then AuthorityPart(s[2..]) else PathQuery(None, s)
  }

  /** What follows `//`: the authority up to `/`, `?` or `#`, then the path and the query. */
  function AuthorityPart(a: string): Option<(Body, string)>
  {
    var q := ScanTo(a, AuthorityEnd);
    if q > 0 then (if Valid(RegName, a[..q]) then PathQuery(Some(a[..q]), a[q..]) else None)
    else if q < |a| then PathQuery(Some([]), a)
    else None
  }

  /** The path, up to `?` or `#`, and what follows it. */
  function PathQuery(authority: Option<string>, s: string): Option<(Body, string)>
  {
    var q := ScanTo(s, PathEnd);
    if !Valid(PathText, s[..q]) then None else QueryPart(authority, s[..q], s[q..])
  }

  /** The optional `?query`, up to `#`. */
  function QueryPart(authority: Option<string>, path: string, s: string): Option<(Body, string)>
  {
    if s != [] && s[0] == '?' then
      var t := s[1..];
      var q := ScanTo(t, FragmentStart);
      if Valid(UricText, t[..q]) then Some((Hierarchy(authority, path, Some(t[..q])), t[q..])) else None
    else Some((Hierarchy(authority, path, None), s))
  }

  // ---------------------------------------------------------------------------------------
  // The parser loses nothing: a parsed URI renders back to its input, component by component.

  /** The text a hierarchical body starts with: `//` and the authority, when there is one. */
  function AuthorityText(authority: Option<string>): string
  {
    if authority.Some? then "//" + authority.value else ""
  }

  /** What may follow a component: nothing, or the delimiter that ends it. */
  predicate EndsAt(rest: string, k: Stops)
  {
    rest == [] || IsStop(k, rest[0])
  }

  lemma QueryPartRenders(authority: Option<string>, path: string, s: string)
    requires QueryPart(authority, path, s).Some? && EndsAt(s, PathEnd)
    requires (authority.Some? ==> Valid(RegName, authority.value)) && Valid(PathText, path)
    ensures var r := QueryPart(authority, path, s).value;
            RenderBody(r.0) + r.1 == AuthorityText(authority) + path + s
            && BodyWellFormed(r.0) && EndsAt(r.1, FragmentStart)
  {
    if s != [] && s[0] == '?' {
      var u := s[1..];
      var q := ScanTo(u, FragmentStart);
      QueryText(s, q);
      HierarchyRenders(authority, path, Some(u[..q]), u[q..], s);
    } else {
      HierarchyRenders(authority, path, None, s, s);
    }
  }

  lemma QueryText(s: string, q: nat)
    requires s != [] && s[0] == '?' && q <= |s| - 1
    ensures s == "?" + s[1..][..q] + s[1..][q..]
  {
    assert s == [s[0]] + s[1..];
  }

  lemma HierarchyRenders(authority: Option<string>, path: string, query: Option<string>, rest: string, s: string)
    requires s == (if query.Some? then "?" + query.value else "") + rest
    ensures RenderBody(Hierarchy(authority, path, query)) + rest == AuthorityText(authority) + path + s
  {
  }

  lemma PathQueryRenders(authority: Option<string>, s: string)
    requires PathQuery(authority, s).Some?
    requires authority.Some? ==> Valid(RegName, authority.value)
    ensures var r := PathQuery(authority, s).value;
            RenderBody(r.0) + r.1 == AuthorityText(authority) + s
            && BodyWellFormed(r.0) && EndsAt(r.1, FragmentStart)
  {
    var q := ScanTo(s, PathEnd);
    QueryPartRenders(authority, s[..q], s[q..]);
    SplitRejoins(AuthorityText(authority), s, q);
  }

  lemma SplitRejoins(pre: string, s: string, q: nat)
    requires q <= |s|
    ensures pre + s[..q] + s[q..] == pre + s
  {
    assert s[..q] + s[q..] == s;
  }

  lemma HierPartRenders(s: string)
    requires HierPart(s).Some?
    ensures var h := HierPart(s).value;
            RenderBody(h.0) + h.1 == s && BodyWellFormed(h.0) && EndsAt(h.1, FragmentStart)
  {
    if |s| >= 2 && s[0] == '/' && s[1] == '/' {
      AuthorityPartRenders(s[2..]);
      SlashesSplit(s);
    } else {
      PathQueryRenders(None, s);
    }
  }

  lemma SlashesSplit(s: string)
    requires |s| >= 2 && s[0] == '/' && s[1] == '/'
    ensures s == "//" + s[2..]
  {
  }

  lemma AuthorityPartRenders(a: string)
    requires AuthorityPart(a).Some?
    ensures var h := AuthorityPart(a).value;
            RenderBody(h.0) + h.1 == "//" + a && BodyWellFormed(h.0) && EndsAt(h.1, FragmentStart)
  {
    var q := ScanTo(a, AuthorityEnd);
    if q > 0 {
      PathQueryRenders(Some(a[..q]), a[q..]);
      assert "//" + a[..q] + a[q..] == "//" + a;
    } else {
      PathQueryRenders(Some([]), a);
      assert "//" + [] + a == "//" + a;
    }
  }

  lemma FinishRenders(scheme: Option<string>, body: Body, rest: string)
    requires Finish(scheme, body, rest).Some?
    ensures var u := Finish(scheme, body, rest).value;
            Render(u) == SchemePrefix(scheme) + (RenderBody(body) + rest)
            && u.scheme == scheme && u.body == body
            && (u.fragment.Some? ==> Valid(UricText, u.fragment.value))
  {
    if rest != [] {
      assert rest == "#" + rest[1..];
    }
  }

  /** The parse of what follows `scheme:` renders back to it. */
  lemma SchemeSpecificRenders(scheme: string, t: string)
    requires SchemeSpecific(scheme, t).Some?
    ensures var u := SchemeSpecific(scheme, t).value;
            Render(u) == scheme + ":" + t && u.scheme == Some(scheme) && BodyWellFormed(u.body)
            && (u.fragment.Some? ==> Valid(UricText, u.fragment.value))
  {
    if t != [] && t[0] == '/' {
      var h := HierPart(t).value;
      HierPartRenders(t);
      FinishRenders(Some(scheme), h.0, h.1);
    } else {
      var q := ScanTo(t, FragmentStart);
      OpaqueRenders(t, q);
      FinishRenders(Some(scheme), Opaque(t[..q]), t[q..]);
    }
  }

  lemma OpaqueRenders(t: string, q: nat)
    requires q <= |t|
    ensures RenderBody(Opaque(t[..q])) + t[q..] == t
  {
  }

  /** A successful parse is lossless and well formed: rendering the components gives back the
      input exactly (as `URI.toString` returns the string the URI was created from), and
      each component consists only of the characters its class admits. */
  lemma {:induction false} ParseIsLossless(s: string)
    requires Parse(s).Some?
    ensures Render(Parse(s).value) == s
    ensures Parse(s).value.WellFormed()
  {
    var p := SchemeColon(s);
    if p < 0 {
      RelativeRenders(s);
    } else {
      ColonSplits(s, p);
      SchemeSpecificRenders(s[..p], s[p + 1..]);
    }
  }

  lemma ColonSplits(s: string, p: nat)
    requires p < |s| && s[p] == ':'
    ensures s == s[..p] + ":" + s[p + 1..]
  {
  }

  lemma RelativeRenders(s: string)
    requires HierPart(s).Some?
    requires Finish(None, HierPart(s).value.0, HierPart(s).value.1).Some?
    ensures var u := Finish(None, HierPart(s).value.0, HierPart(s).value.1).value;
            Render(u) == s && u.WellFormed()
  {
    var h := HierPart(s).value;
    HierPartRenders(s);
    FinishRenders(None, h.0, h.1);
    var u := Finish(None, h.0, h.1).value;
    assert Render(u) == [] + s;
  }

  /** No component admits a space, so a well-formed component never holds one. */
  lemma {:induction false} ValidHasNoSpace(k: Component, s: string)
    requires Valid(k, s)
    ensures ' ' !in s
    decreases |s|
  {
    if s != [] {
      if Admits(k, s[0]) || IsOther(s[0]) {
        ValidHasNoSpace(k, s[1..]);
        assert s == [s[0]] + s[1..];
      } else {
        ValidHasNoSpace(k, s[3..]);
        assert s == s[..3] + s[3..];
      }
    }
  }

  lemma SchemeHasNoSpace(s: string)
    requires IsScheme(s)
    ensures ' ' !in s
  {
  }

  /** A string with a space in it is never a URI (as `http://not a valid url` is not). */
  lemma SpaceIsMalformed(s: string)
    requires ' ' in s
    ensures Parse(s).None?
  {
    if Parse(s).Some? {
      var u := Parse(s).value;
      ParseIsLossless(s);
      if u.scheme.Some? {
        SchemeHasNoSpace(u.scheme.value);
      }
      if u.fragment.Some? {
        ValidHasNoSpace(UricText, u.fragment.value);
      }
      match u.body {
        case Opaque(part) =>
          ValidHasNoSpace(UricText, part);
        case Hierarchy(authority, path, query) =>
          if authority.Some? {
            ValidHasNoSpace(RegName, authority.value);
          }
          ValidHasNoSpace(PathText, path);
          if query.Some? {
            ValidHasNoSpace(UricText, query.value);
          }
      }
    }
  }

  /** The scheme's `:` is the first `:` of a string that starts with a scheme name. */
  lemma {:induction false} SchemeColonAfterScheme(scheme: string, rest: string)
    requires forall i :: 0 <= i < |scheme| ==> IsSchemeChar(scheme[i])
    ensures SchemeColon(scheme + ":" + rest) == |scheme|
  {
    if scheme != [] {
      assert (scheme + ":" + rest)[1..] == scheme[1..] + ":" + rest;
      SchemeColonAfterScheme(scheme[1..], rest);
    } else {
      assert (scheme + ":" + rest)[0] == ':';
    }
  }

  /** Text that begins with a scheme name and `:` is either rejected or has exactly that
      scheme. */
  lemma SchemeIsPrefix(scheme: string, rest: string)
    requires IsScheme(scheme)
    ensures Parse(scheme + ":" + rest).Some? ==> Parse(scheme + ":" + rest).value.scheme == Some(scheme)
  {
    var s := scheme + ":" + rest;
    SchemeColonAfterScheme(scheme, rest);
    assert s[..|scheme|] == scheme && s[|scheme| + 1..] == rest;
    if SchemeSpecific(scheme, rest).Some? {
      SchemeSpecificRenders(scheme, rest);
    }
  }

  // ---------------------------------------------------------------------------------------
  // The parser accepts what the grammar allows: `scheme://host/path` and `scheme:/path`.

  /** Every character of `s` is one its class admits as it stands. */
  predicate AllAdmitted(k: Component, s: string)
  {
    forall i :: 0 <= i < |s| ==> Admits(k, s[i])
  }

  /** Text whose every character its class admits is valid for that class. */
  lemma {:induction false} AdmittedValid(k: Component, s: string)
    requires AllAdmitted(k, s)
    ensures Valid(k, s)
  {
    if s != [] {
      AdmittedValid(k, s[1..]);
    }
  }

  /** The scan stops at the first delimiter, or at the end when there is none. */
  lemma {:induction false} ScanStop(s: string, k: Stops, n: nat)
    requires n <= |s| && (forall i :: 0 <= i < n ==> !IsStop(k, s[i])) && (n == |s| || IsStop(k, s[n]))
    ensures ScanTo(s, k) == n
  {
    if n > 0 {
      ScanStop(s[1..], k, n - 1);
    }
  }

  /** A path of path characters is the whole path, with no query after it. */
  lemma PathAccepted(authority: Option<string>, path: string)
    requires AllAdmitted(PathText, path)
    ensures PathQuery(authority, path) == Some((Hierarchy(authority, path, None), []))
  {
    ScanStop(path, PathEnd, |path|);
    AdmittedValid(PathText, path);
    assert path[..|path|] == path && path[|path|..] == [];
  }

  /** A non-empty host of `reg_name` characters, then an empty or absolute path, is the
      authority and the path. */
  lemma AuthorityAccepted(host: string, path: string)
    requires host != [] && AllAdmitted(RegName, host)
    requires path == [] || path[0] == '/'
    requires AllAdmitted(PathText, path)
    ensures AuthorityPart(host + path) == Some((Hierarchy(Some(host), path, None), []))
  {
    var a := host + path;
    ScanStop(a, AuthorityEnd, |host|);
    AdmittedValid(RegName, host);
    assert a[..|host|] == host && a[|host|..] == path;
    PathAccepted(Some(host), path);
  }

  /** After a scheme name and `:`, the rest is what the scheme-specific part is parsed from. */
  lemma SchemeSplit(scheme: string, rest: string)
    requires IsScheme(scheme)
    ensures var s := scheme + ":" + rest;
            Parse(s) == SchemeSpecific(scheme, rest)
  {
    var s := scheme + ":" + rest;
    SchemeColonAfterScheme(scheme, rest);
    assert s[..|scheme|] == scheme && s[|scheme| + 1..] == rest;
  }

  /** `scheme://host` followed by an empty or absolute path is accepted, with exactly those
      components and no query or fragment. */
  lemma ServerUrlAccepted(scheme: string, host: string, path: string)
    requires IsScheme(scheme)
    requires host != [] && AllAdmitted(RegName, host)
    requires path == [] || path[0] == '/'
    requires AllAdmitted(PathText, path)
    ensures Parse(scheme + ":" + ("//" + host + path))
         == Some(Uri(Some(scheme), Hierarchy(Some(host), path, None), None))
  {
    var t := "//" + host + path;
    SchemeSplit(scheme, t);
    HierAuthority(t, host + path);
    AuthorityAccepted(host, path);
    FinishHierarchy(scheme, t, Hierarchy(Some(host), path, None));
  }

  /** `//` starts an authority. */
  lemma HierAuthority(t: string, a: string)
    requires t == "//" + a
    ensures HierPart(t) == AuthorityPart(a)
  {
    assert t[2..] == a;
  }

  /** A hierarchical part that takes the whole rest of the input completes the URI. */
  lemma FinishHierarchy(scheme: string, t: string, body: Body)
    requires t != [] && t[0] == '/' && HierPart(t) == Some((body, []))
    ensures SchemeSpecific(scheme, t) == Some(Uri(Some(scheme), body, None))
  {
  }

  /** `scheme:` followed by an absolute path that does not start with `//` is accepted, with
      that path, no authority and no query or fragment. */
  lemma PathUrlAccepted(scheme: string, path: string)
    requires IsScheme(scheme)
    requires path != [] && path[0] == '/' && (|path| == 1 || path[1] != '/')
    requires AllAdmitted(PathText, path)
    ensures Parse(scheme + ":" + path) == Some(Uri(Some(scheme), Hierarchy(None, path, None), None))
  {
    SchemeSplit(scheme, path);
    PathAccepted(None, path);
  }
}
