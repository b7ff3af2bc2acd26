/** The slice of `urllib.parse` the catalog loader uses: `urlparse` on an
    "https://" URL, `urlunparse` of the rebuilt parts, and the URL built for
    every catalog image (main.py lines 49-55). `urlsplit` here follows the
    CPython releases that include bpo-43882 (3.9.5 and later, 3.10 and
    later, and the 3.6-3.8 security releases), which delete every TAB, CR
    and LF from the URL before splitting it. */
module Url {
  import Percent
  import Utf8
  import opened Wrappers

  const SchemePrefix := "https://"
  const Host := "pighub.top"
  /** The base every thumbnail path is appended to. */
  const BaseUrl := "https://pighub.top/"

  /** The six components `urlparse` returns. */
  datatype UrlParts = UrlParts(
    scheme: string, netloc: string, path: string,
    params: string, query: string, fragment: string)

  /** The characters `urlsplit` deletes from anywhere in a URL. */
  predicate IsDeleted(c: char) {
    c == '\t' || c == '\r' || c == '\n'
  }

  function RemoveDeleted(s: string): (r: string)
    ensures |r| <= |s|
    ensures forall i :: 0 <= i < |r| ==> !IsDeleted(r[i])
    ensures (forall i :: 0 <= i < |s| ==> !IsDeleted(s[i])) ==> r == s
  {
    if |s| == 0 then []
    else if IsDeleted(s[0]) then RemoveDeleted(s[1..])
    else [s[0]] + RemoveDeleted(s[1..])
  }

  /** A single character is dropped exactly when it is a TAB, CR or LF;
      with `RemoveDeletedAppend` this fixes the result for every string:
      the other characters are kept, in order. */
  lemma RemoveDeletedChar(c: char)
    ensures RemoveDeleted([c]) == (if IsDeleted(c) then [] else [c])
  {
    assert [c][1..] == [];
  }

  lemma {:induction false} RemoveDeletedAppend(a: string, b: string)
    ensures RemoveDeleted(a + b) == RemoveDeleted(a) + RemoveDeleted(b)
    decreases |a|
  {
    if |a| > 0 {
      assert (a + b)[1..] == a[1..] + b;
      RemoveDeletedAppend(a[1..], b);
    } else {
      assert a + b == b;
    }
  }

  /** Python's `s.find(c)`, with "absent" reported as `|s|`. */
  function Find(s: string, c: char): (r: nat)
    ensures r <= |s|
    ensures r < |s| ==> s[r] == c
    ensures forall j :: 0 <= j < r ==> s[j] != c
  {
    if |s| == 0 then 0
    else if s[0] == c then 0
    else 1 + Find(s[1..], c)
  }

  /** Python's `s.rfind(c)`: the last position of `c`, or -1. */
  function RFind(s: string, c: char): (r: int)
    ensures -1 <= r < |s|
    ensures r >= 0 ==> s[r] == c
    ensures forall j :: r < j < |s| ==> s[j] != c
    decreases |s|
  {
    if |s| == 0 then -1
    else if s[|s| - 1] == c then |s| - 1
    else RFind(s[..|s| - 1], c)
  }

  function Min(a: nat, b: nat): nat {
    if a <= b then a else b
  }

  /** `_splitparams`: a ";" is looked for only after the last "/". */
  function SplitParams(p: string): (string, string)
  {
    if Find(p, ';') == |p| then (p, "")
    else if Find(p, '/') < |p| then
      var j := RFind(p, '/');
      var i := j + Find(p[j..], ';');
      if i == |p| then (p, "") else (p[..i], p[i + 1..])
    else
      var i := Find(p, ';');
      (p[..i], p[i + 1..])
  }

  /** Splits what follows the network location into path, params, query
      and fragment: "#" first, then "?", then `_splitparams`. */
  function SplitTail(tail: string): UrlParts
  {
    var f := Find(tail, '#');
    var fragment := if f < |tail| then tail[f + 1..] else "";
    var beforeFragment := tail[..f];
    var q := Find(beforeFragment, '?');
    var query := if q < |beforeFragment| then beforeFragment[q + 1..] else "";
    var (path, params) := SplitParams(beforeFragment[..q]);
    UrlParts("https", "", path, params, query, fragment)
  }

  predicate HasSchemePrefix(u: string) {
    |u| >= |SchemePrefix| && u[..|SchemePrefix|] == SchemePrefix
  }

  /** Splits what follows "https://": the network location runs up to the
      first "/", "?" or "#". */
  function SplitRest(rest: string): UrlParts
  {
    var n := Min(Find(rest, '/'), Min(Find(rest, '?'), Find(rest, '#')));
    SplitTail(rest[n..]).(netloc := rest[..n])
  }

  /** `urllib.parse.urlparse(url)` for a URL that begins "https://" once
      TAB, CR and LF are deleted. */
  function Parse(url: string): UrlParts
    requires HasSchemePrefix(RemoveDeleted(url))
  {
    SplitRest(RemoveDeleted(url)[|SchemePrefix|..])
  }

  /** `urllib.parse.urlunparse` for scheme "https". */
  function Unparse(p: UrlParts): string
    requires p.scheme == "https"
  {
    var path := if p.params != "" then p.path + ";" + p.params else p.path;
    var withNetloc :=
      if p.netloc != "" || !(|path| >= 2 && path[..2] == "//") then
        "//" + p.netloc + (if |path| > 0 && path[0] != '/' then "/" + path else path)
      else path;
    var withQuery := if p.query != "" then withNetloc + "?" + p.query else withNetloc;
    var withFragment := if p.fragment != "" then withQuery + "#" + p.fragment else withQuery;
    p.scheme + ":" + withFragment
  }

  lemma BaseUrlHasNoDeleted()
    ensures forall i :: 0 <= i < |BaseUrl| ==> !IsDeleted(BaseUrl[i])
  {
  }

  lemma RemoveDeletedKeeps(s: string)
    requires forall i :: 0 <= i < |s| ==> !IsDeleted(s[i])
    ensures RemoveDeleted(s) == s
  {
  }

  /** Appending to a prefix that has no deleted characters keeps it intact. */
  lemma RemoveDeletedAfterClean(base: string, s: string)
    requires forall i :: 0 <= i < |base| ==> !IsDeleted(base[i])
    ensures RemoveDeleted(base + s) == base + RemoveDeleted(s)
  {
    RemoveDeletedAppend(base, s);
    RemoveDeletedKeeps(base);
  }

  /** A thumbnail appended to the base always yields a parsable URL; the
      deletion of TAB, CR and LF leaves the base itself alone. */
  lemma BaseUrlParses(thumbnail: string)
    ensures RemoveDeleted(BaseUrl + thumbnail) == BaseUrl + RemoveDeleted(thumbnail)
    ensures HasSchemePrefix(RemoveDeleted(BaseUrl + thumbnail))
  {
    BaseUrlHasNoDeleted();
    RemoveDeletedAfterClean(BaseUrl, thumbnail);
    var u := BaseUrl + RemoveDeleted(thumbnail);
    assert u[..|SchemePrefix|] == BaseUrl[..|SchemePrefix|];
  }

  /** The path the loader percent-encodes for a thumbnail, before encoding. */
  function RawPath(thumbnail: string): string
  {
    BaseUrlParses(thumbnail);
    Parse(BaseUrl + thumbnail).path
  }

  /** The `full_url` built for a catalog thumbnail (main.py lines 49-55). */
  function BuildUrl(thumbnail: string): string
  {
    BaseUrlParses(thumbnail);
    var parsed := Parse(BaseUrl + thumbnail);
    Unparse(UrlParts(parsed.scheme, parsed.netloc, Percent.Quote(parsed.path), "", "", ""))
  }

  predicate IsPrefix(a: string, b: string) {
    |a| <= |b| && b[..|a|] == a
  }

  /** `_splitparams` on a path that starts with "/" keeps a prefix that
      still starts with "/", has no ";" in its last segment, and stops only
      at a ";". */
  lemma SplitParamsPath(p: string)
    requires |p| > 0 && p[0] == '/'
    ensures var path := SplitParams(p).0;
      && IsPrefix(path, p) && |path| > 0
      && (forall i :: RFind(path, '/') < i < |path| ==> path[i] != ';')
      && (|path| < |p| ==> p[|path|] == ';')
      && (|path| < |p| ==> forall i :: |path| < i < |p| ==> p[i] != '/')
  {
    var path := SplitParams(p).0;
    if Find(p, ';') == |p| {
    } else {
      assert Find(p, '/') < |p|;
      var j := RFind(p, '/');
      assert j >= 0;
      var k := Find(p[j..], ';');
      assert k > 0;
      var i := j + k;
      if i < |p| {
        assert path == p[..i];
        var r := RFind(path, '/');
        assert path[j] == '/';
        assert r >= j;
        assert r == j;
        forall m | r < m < |path|
          ensures path[m] != ';'
        {
          assert path[m] == p[j..][m - j];
        }
      } else {
        forall m | RFind(p, '/') < m < |p|
          ensures p[m] != ';'
        {
          assert p[m] == p[j..][m - j];
        }
      }
    }
  }

  /** What precedes the query and the fragment of a tail. */
  function BeforeQuery(tail: string): string
  {
    var beforeFragment := tail[..Find(tail, '#')];
    beforeFragment[..Find(beforeFragment, '?')]
  }

  /** The part before the query and fragment is a prefix free of "?" and
      "#", cut only at one of them; `_splitparams` works on it. */
  lemma BeforeQueryCut(tail: string)
    ensures var pa := BeforeQuery(tail);
      && IsPrefix(pa, tail)
      && (forall i :: 0 <= i < |pa| ==> pa[i] != '?' && pa[i] != '#')
      && (|pa| < |tail| ==> tail[|pa|] == '?' || tail[|pa|] == '#')
      && SplitTail(tail).path == SplitParams(pa).0
  {
    var f := Find(tail, '#');
    var beforeFragment := tail[..f];
    var q := Find(beforeFragment, '?');
    var pa := beforeFragment[..q];
    assert pa == tail[..q];
    forall i | 0 <= i < |pa|
      ensures pa[i] != '?' && pa[i] != '#'
    {
      assert pa[i] == beforeFragment[i];
    }
    if q < |beforeFragment| {
      assert tail[q] == beforeFragment[q];
    }
  }

  /** `path` is what `urlsplit` and `urlparse` keep as the path of a tail
      that starts with "/": a prefix of it that starts with "/", holds no
      "?" or "#" and no ";" in its last segment, and is cut only at a "?",
      "#" or ";" — at a ";" only when no "/" follows it before the query or
      fragment, so the cut falls at the first ";" after the last "/". */
  predicate IsPathCut(path: string, tail: string)
  {
    && IsPrefix(path, tail) && |path| > 0 && path[0] == '/'
    && (forall i :: 0 <= i < |path| ==> path[i] != '?' && path[i] != '#')
    && (forall i :: RFind(path, '/') < i < |path| ==> path[i] != ';')
    && (|path| < |tail| ==> tail[|path|] in {'?', '#', ';'})
    && IsPrefix(path, BeforeQuery(tail))
    && (|path| < |BeforeQuery(tail)| ==>
          tail[|path|] == ';' && forall i :: |path| < i < |BeforeQuery(tail)| ==> tail[i] != '/')
  }

  /** The path of a "/"-rooted tail is cut as `IsPathCut` describes. */
  lemma SplitTailPath(tail: string)
    requires |tail| > 0 && tail[0] == '/'
    ensures IsPathCut(SplitTail(tail).path, tail)
  {
    BeforeQueryCut(tail);
    var pa := BeforeQuery(tail);
    assert pa[0] == '/';
    SplitParamsPath(pa);
    var path := SplitParams(pa).0;
    forall i | 0 <= i < |path|
      ensures path[i] != '?' && path[i] != '#'
    {
      assert path[i] == pa[i];
    }
    assert path == tail[..|path|];
    if |path| < |tail| && |path| < |pa| {
      assert tail[|path|] == pa[|path|];
    }
    if |path| < |pa| {
      forall i | |path| < i < |pa|
        ensures tail[i] != '/'
      {
        assert tail[i] == pa[i];
      }
    }
  }

  /** A tail with no "#", "?" or ";" is all path. */
  lemma SplitTailPlain(tail: string)
    requires forall i :: 0 <= i < |tail| ==> tail[i] != '#' && tail[i] != '?' && tail[i] != ';'
    ensures SplitTail(tail) == UrlParts("https", "", tail, "", "", "")
  {
    assert Find(tail, '#') == |tail|;
    assert tail[..|tail|] == tail;
    assert Find(tail, '?') == |tail|;
    assert Find(tail, ';') == |tail|;
  }

  lemma SchemePrefixPlain()
    ensures forall i :: 0 <= i < |SchemePrefix| ==> !IsDeleted(SchemePrefix[i])
    ensures SchemePrefix == "https" + ":" + "//"
  {
  }

  lemma SplitRestHostTail(host: string, tail: string)
    requires forall i :: 0 <= i < |host| ==> host[i] !in {'/', '?', '#'}
    requires |tail| > 0 && tail[0] == '/'
    ensures SplitRest(host + tail) == SplitTail(tail).(netloc := host)
  {
    var rest := host + tail;
    assert rest[|host|] == '/';
    assert Find(rest, '/') == |host|;
    assert Find(rest, '?') >= |host|;
    assert Find(rest, '#') >= |host|;
    assert rest[..|host|] == host;
    assert rest[|host|..] == tail;
  }

  lemma ConcatClean(a: string, b: string)
    requires forall i :: 0 <= i < |a| ==> !IsDeleted(a[i])
    requires forall i :: 0 <= i < |b| ==> !IsDeleted(b[i])
    ensures forall i :: 0 <= i < |a + b| ==> !IsDeleted((a + b)[i])
  {
    forall i | 0 <= i < |a + b|
      ensures !IsDeleted((a + b)[i])
    {
      if i < |a| {
        assert (a + b)[i] == a[i];
      } else {
        assert (a + b)[i] == b[i - |a|];
      }
    }
  }

  /** `urlparse` of "https://" followed by text free of TAB, CR and LF. */
  lemma ParseClean(rest: string)
    requires forall i :: 0 <= i < |rest| ==> !IsDeleted(rest[i])
    ensures HasSchemePrefix(RemoveDeleted(SchemePrefix + rest))
    ensures Parse(SchemePrefix + rest) == SplitRest(rest)
  {
    RemoveDeletedKeeps(rest);
    SchemePrefixPlain();
    RemoveDeletedAfterClean(SchemePrefix, rest);
    var u := SchemePrefix + rest;
    assert u[..|SchemePrefix|] == SchemePrefix;
    assert u[|SchemePrefix|..] == rest;
  }

  /** How `urlparse` splits "https://" + host + tail when the host holds no
      delimiter and the tail starts with "/". */
  lemma ParseHostTail(host: string, tail: string)
    requires forall i :: 0 <= i < |host| ==> host[i] !in {'/', '?', '#'} && !IsDeleted(host[i])
    requires |tail| > 0 && tail[0] == '/'
    requires forall i :: 0 <= i < |tail| ==> !IsDeleted(tail[i])
    ensures HasSchemePrefix(RemoveDeleted(SchemePrefix + host + tail))
    ensures Parse(SchemePrefix + host + tail) == SplitTail(tail).(netloc := host)
  {
    var rest := host + tail;
    ConcatClean(host, tail);
    ParseClean(rest);
    assert SchemePrefix + host + tail == SchemePrefix + rest;
    calc {
      Parse(SchemePrefix + rest);
      SplitRest(rest);
      { SplitRestHostTail(host, tail); }
      SplitTail(tail).(netloc := host);
    }
  }

  /** `urlunparse` of scheme "https", a host and a "/"-rooted path with no
      params, query or fragment. */
  lemma UnparseHostPath(host: string, path: string)
    requires host != "" && |path| > 0 && path[0] == '/'
    ensures Unparse(UrlParts("https", host, path, "", "", "")) == SchemePrefix + host + path
  {
    SchemePrefixPlain();
  }

  lemma HostIsPlain()
    ensures forall i :: 0 <= i < |Host| ==> Host[i] !in {'/', '?', '#'} && !IsDeleted(Host[i])
    ensures BaseUrl == SchemePrefix + Host + "/"
  {
  }

  /** `urlparse` of the base followed by a thumbnail: scheme "https", host
      "pighub.top", and a path cut from "/" + the thumbnail (TAB, CR and LF
      deleted) as `SplitTailPath` describes. */
  lemma {:induction false} RawPathOf(thumbnail: string)
    ensures var full := "/" + RemoveDeleted(thumbnail);
      && HasSchemePrefix(RemoveDeleted(BaseUrl + thumbnail))
      && Parse(BaseUrl + thumbnail).scheme == "https"
      && Parse(BaseUrl + thumbnail).netloc == Host
      && RawPath(thumbnail) == SplitTail(full).path
  {
    var full := "/" + RemoveDeleted(thumbnail);
    HostIsPlain();
    BaseUrlParses(thumbnail);
    assert BaseUrl + RemoveDeleted(thumbnail) == SchemePrefix + Host + full;
    ParseHostTail(Host, full);
  }

  /** Percent-encoding keeps a leading "/" and maps every other first
      character to something other than "/". */
  lemma QuoteSlashPrefix(c: char, rest: string)
    ensures Percent.Quote([c] + rest) == Percent.Quote([c]) + Percent.Quote(rest)
    ensures |Percent.Quote([c])| > 0
    ensures Percent.Quote([c])[0] == '/' <==> c == '/'
    ensures c == '/' ==> Percent.Quote([c]) == "/"
  {
    Percent.QuoteAppend([c], rest);
    var bs := Utf8.EncodeChar(c);
    assert Utf8.Encode([c]) == bs + Utf8.Encode([]);
    assert Utf8.Encode([c]) == bs;
    assert Percent.QuoteBytes(bs) == Percent.QuoteByte(bs[0]) + Percent.QuoteBytes(bs[1..]);
    if c == '/' {
      assert bs == [47];
      assert Percent.QuoteByte(47) == "/";
    }
  }

  /** The raw path and its encoding both start with "/". */
  lemma {:induction false} RawPathRooted(thumbnail: string)
    ensures var path := RawPath(thumbnail);
      && |path| > 0 && path[0] == '/'
      && |Percent.Quote(path)| > 0 && Percent.Quote(path)[0] == '/'
  {
    RawPathOf(thumbnail);
    SplitTailPath("/" + RemoveDeleted(thumbnail));
    QuoteSecondSlash(RawPath(thumbnail));
  }

  /** The rebuilt URL is "https://pighub.top" followed by the encoded path. */
  lemma {:induction false} BuildUrlShape(thumbnail: string)
    ensures var path := RawPath(thumbnail);
      && |path| > 0 && path[0] == '/'
      && BuildUrl(thumbnail) == SchemePrefix + Host + Percent.Quote(path)
      && Percent.Quote(path)[0] == '/'
  {
    RawPathOf(thumbnail);
    RawPathRooted(thumbnail);
    var q := Percent.Quote(RawPath(thumbnail));
    UnparseHostPath(Host, q);
    BaseUrlParses(thumbnail);
    var parsed := Parse(BaseUrl + thumbnail);
    assert parsed.path == RawPath(thumbnail);
    assert BuildUrl(thumbnail) == Unparse(UrlParts("https", Host, q, "", "", ""));
  }

  /** Every built URL starts with the base: scheme "https", host
      "pighub.top", then "/" — whatever the thumbnail holds. */
  lemma {:induction false} BuildUrlStartsWithBase(thumbnail: string)
    ensures IsPrefix(BaseUrl, BuildUrl(thumbnail))
  {
    BuildUrlShape(thumbnail);
    HostIsPlain();
    var q := Percent.Quote(RawPath(thumbnail));
    var u := SchemePrefix + Host + q;
    assert u[..|BaseUrl|] == SchemePrefix + Host + q[..1];
    assert q[..1] == "/";
  }

  /** Parsing the built URL again gives back its parts: scheme "https", host
      "pighub.top", the encoded path, and empty params, query and fragment —
      the encoded path holds no "?", "#" or ";" that could be read as a
      delimiter. */
  lemma {:induction false} BuildUrlReparses(thumbnail: string)
    ensures HasSchemePrefix(RemoveDeleted(BuildUrl(thumbnail)))
    ensures Parse(BuildUrl(thumbnail)) ==
      UrlParts("https", Host, Percent.Quote(RawPath(thumbnail)), "", "", "")
  {
    BuildUrlShape(thumbnail);
    HostIsPlain();
    var q := Percent.Quote(RawPath(thumbnail));
    assert forall i :: 0 <= i < |q| ==> !IsDeleted(q[i]) && q[i] !in {'#', '?', ';'} by {
      forall i | 0 <= i < |q|
        ensures !IsDeleted(q[i]) && q[i] !in {'#', '?', ';'}
      {
        assert Percent.IsUnreserved(q[i]) || q[i] == '/' || q[i] == '%';
      }
    }
    ParseHostTail(Host, q);
    SplitTailPlain(q);
  }

  /** The built URL's path percent-decodes to the UTF-8 bytes of the raw
      path, which decode back to the raw path; the raw path is "/" followed
      by the thumbnail (TAB, CR and LF deleted), cut before any query or
      fragment and then at the first ";" after the last "/". */
  lemma {:induction false} BuildUrlPathDecodes(thumbnail: string)
    ensures var path := RawPath(thumbnail);
      var full := "/" + RemoveDeleted(thumbnail);
      && Percent.Unquote(Percent.Quote(path)) == Some(Utf8.Encode(path))
      && Utf8.Decode(Utf8.Encode(path)) == Some(path)
      && IsPathCut(path, full)
  {
    var path := RawPath(thumbnail);
    Percent.QuoteRoundTrip(path);
    RawPathOf(thumbnail);
    SplitTailPath("/" + RemoveDeleted(thumbnail));
  }

  /** The raw path begins "//" exactly when its source does. */
  lemma RawPathDoubleSlash(thumbnail: string)
    ensures var path := RawPath(thumbnail);
      var r := RemoveDeleted(thumbnail);
      (|path| > 1 && path[1] == '/') <==> (|r| > 0 && r[0] == '/')
  {
    RawPathOf(thumbnail);
    var r := RemoveDeleted(thumbnail);
    var full := "/" + r;
    SplitTailPath(full);
    var path := RawPath(thumbnail);
    if |path| > 1 {
      assert path[1] == full[1];
    }
  }

  /** Percent-encoding a "/"-rooted path puts "/" second exactly when the
      path has "/" second. */
  lemma QuoteSecondSlash(p: string)
    requires |p| > 0 && p[0] == '/'
    ensures var q := Percent.Quote(p);
      |q| > 0 && q[0] == '/' && ((|q| > 1 && q[1] == '/') <==> (|p| > 1 && p[1] == '/'))
  {
    assert p == [p[0]] + p[1..];
    QuoteSlashPrefix(p[0], p[1..]);
    var rest := p[1..];
    if |rest| > 0 {
      assert rest == [rest[0]] + rest[1..];
      QuoteSlashPrefix(rest[0], rest[1..]);
    } else {
      Percent.QuoteEmpty();
    }
  }

  /** The character after the base in the built URL is "/" exactly when the
      raw path's second character is. */
  lemma {:induction false} EncodedSecondChar(thumbnail: string)
    ensures var url := BuildUrl(thumbnail);
      var path := RawPath(thumbnail);
      (|url| > |BaseUrl| && url[|BaseUrl|] == '/') <==> (|path| > 1 && path[1] == '/')
  {
    BuildUrlShape(thumbnail);
    HostIsPlain();
    var path := RawPath(thumbnail);
    QuoteSecondSlash(path);
    var q := Percent.Quote(path);
    var url := BuildUrl(thumbnail);
    var front := SchemePrefix + Host;
    assert url == front + q;
    assert |front| + 1 == |BaseUrl|;
    if |q| > 1 {
      assert url[|BaseUrl|] == q[1];
    }
  }

  /** The built URL's path begins "//" exactly when the thumbnail, once TAB,
      CR and LF are deleted, begins with "/". */
  lemma DoubleSlashIff(thumbnail: string)
    ensures var url := BuildUrl(thumbnail);
      (|url| > |BaseUrl| && url[|BaseUrl|] == '/') <==>
      (|RemoveDeleted(thumbnail)| > 0 && RemoveDeleted(thumbnail)[0] == '/')
  {
    RawPathDoubleSlash(thumbnail);
    EncodedSecondChar(thumbnail);
  }

  /** A thumbnail with a TAB before its first "/" escapes the stripping of
      leading slashes: its URL path begins "//". */
  lemma TabBeforeSlashGivesDoubleSlash()
    ensures var url := BuildUrl("\t/a.jpg");
      |url| > |BaseUrl| && url[|BaseUrl|] == '/'
  {
    var t := "\t/a.jpg";
    var rest := "/a.jpg";
    assert t == ['\t'] + rest;
    RemoveDeletedAppend(['\t'], rest);
    RemoveDeletedChar('\t');
    RemoveDeletedKeeps(rest);
    DoubleSlashIff(t);
  }
}
