/**
  The link monetiser `monetize_links` of main.py: every match of the regular
  expression `https?://[^\s]+` is replaced by a redirect through the
  affiliate host `clnk.in`, unless it already mentions that host.

  `re.sub` scans left to right; at each position it tries the pattern, and on
  a match it emits the replacement and resumes after the match, otherwise it
  copies one character. `Rewrite` is that scan, one character or one match at
  a time.
 */
module Monetize {
  import opened Wrappers
  import opened Strings
  import opened PercentEncoding

  /** The affiliate redirect host; a match that mentions it is left alone. */
  const Host: string := "clnk.in"

  /** Everything the replacement puts before the encoded original URL. */
  function Template(id: string): string {
    "https://clnk.in/" + id + "/?url="
  }

  /** Length of the scheme part of the pattern at the start of `t`: 8 for
      `https://`, 7 for `http://` and 0 when neither is there. The optional
      `s` is greedy, and a text starting with `https` cannot also start with
      `http:`, so trying `https://` first decides. */
  function SchemeLength(t: string): nat {
    if IsPrefix("https://", t) then 8
    else if IsPrefix("http://", t) then 7
    else 0
  }

  /** The pattern `https?://[^\s]+` matches at the start of `t`: the scheme,
      then at least one non-space character. */
  predicate StartsUrl(t: string) {
    var k := SchemeLength(t);
    k > 0 && |t| > k && !IsSpace(t[k])
  }

  /** The same test, character by character. */
  lemma StartsUrlChars(t: string)
    ensures StartsUrl(t) <==>
      || (|t| > 7 && t[0] == 'h' && t[1] == 't' && t[2] == 't' && t[3] == 'p'
          && t[4] == ':' && t[5] == '/' && t[6] == '/' && !IsSpace(t[7]))
      || (|t| > 8 && t[0] == 'h' && t[1] == 't' && t[2] == 't' && t[3] == 'p'
          && t[4] == 's' && t[5] == ':' && t[6] == '/' && t[7] == '/' && !IsSpace(t[8]))
  {
    if |t| >= 8 {
      assert t[..8] == "https://" <==> forall k | 0 <= k < 8 :: t[k] == "https://"[k];
    }
    if |t| >= 7 {
      assert t[..7] == "http://" <==> forall k | 0 <= k < 7 :: t[k] == "http://"[k];
    }
  }

  /** Length of the longest whitespace-free prefix of `t`. */
  function RunLength(t: string): (n: nat)
    ensures n <= |t|
    ensures NoSpace(t[..n])
    ensures n == |t| || IsSpace(t[n])
  {
    if |t| == 0 || IsSpace(t[0]) then 0
    else
      var n := 1 + RunLength(t[1..]);
      assert forall i | 1 <= i < n :: t[..n][i] == t[1..][..n - 1][i - 1];
      n
  }

  /** The whitespace-free run is at least as long as any whitespace-free prefix. */
  lemma {:induction false} RunLengthAtLeast(t: string, k: nat)
    requires k <= |t| && NoSpace(t[..k])
    ensures RunLength(t) >= k
  {
    if k > 0 {
      assert t[..k][0] == t[0];
      var rest := t[1..][..k - 1];
      forall i | 0 <= i < |rest|
        ensures !IsSpace(rest[i])
      {
        assert rest[i] == t[..k][i + 1];
      }
      RunLengthAtLeast(t[1..], k - 1);
    }
  }

  /** The text the pattern matches at the start of `t`: the greedy `[^\s]+`
      takes everything up to the next whitespace or the end of the text. */
  function UrlMatch(t: string): (u: string)
    requires StartsUrl(t)
    ensures IsPrefix(u, t)
    ensures StartsUrl(u) && NoSpace(u)
    ensures |u| == |t| || IsSpace(t[|u|])
  {
    var k := SchemeLength(t);
    StartsUrlChars(t);
    assert NoSpace(t[..k + 1]);
    RunLengthAtLeast(t, k + 1);
    var n := RunLength(t);
    var u := t[..n];
    assert forall i | 0 <= i <= k :: u[i] == t[i];
    StartsUrlChars(u);
    u
  }

  /** The redirect for a URL with encoded form `q`: it starts a match, mentions
      the affiliate host, and is free of whitespace when `id` and `q` are. */
  lemma TemplateFacts(id: string, q: string)
    ensures StartsUrl(Template(id) + q)
    ensures Contains(Template(id) + q, Host)
    ensures NoSpace(id) && NoSpace(q) ==> NoSpace(Template(id) + q)
  {
    var tail := "/" + id + "/?url=" + q;
    TemplateSplit(id, q);
    TemplateStartsUrl(Host + tail);
    ContainsPrefix(Host, tail);
    ContainsAfter("https://", Host + tail, Host);
    if NoSpace(id) && NoSpace(q) {
      NoSpaceConcat("/", id);
      NoSpaceConcat("/" + id, "/?url=");
      NoSpaceConcat("/" + id + "/?url=", q);
      NoSpaceConcat(Host, tail);
      NoSpaceConcat("https://", Host + tail);
    }
  }

  /** The redirect, cut after its scheme and after the host. */
  lemma TemplateSplit(id: string, q: string)
    ensures Template(id) + q == "https://" + (Host + ("/" + id + "/?url=" + q))
  {
  }

  /** `https://` followed by the host name starts a match. */
  lemma TemplateStartsUrl(rest: string)
    requires IsPrefix(Host, rest)
    ensures StartsUrl("https://" + rest)
  {
    var r := "https://" + rest;
    assert r[..8] == "https://";
    assert r[8] == rest[0] == Host[0];
  }

  /** Joining two whitespace-free strings gives one. */
  lemma NoSpaceConcat(a: string, b: string)
    requires NoSpace(a) && NoSpace(b)
    ensures NoSpace(a + b)
  {
    assert forall i | |a| <= i < |a + b| :: (a + b)[i] == b[i - |a|];
  }

  /** The replacement for one match: verbatim when it already mentions the
      affiliate host, the redirect with the percent-encoded URL otherwise. */
  function Convert(u: string, id: string): (r: string)
    ensures Contains(u, Host) ==> r == u
    ensures !Contains(u, Host) ==> IsPrefix(Template(id), r)
    ensures !Contains(u, Host) ==> Unquote(r[|Template(id)|..]) == Some(u)
    ensures !Contains(u, Host) ==> WellEncoded(r[|Template(id)|..])
    ensures Contains(r, Host)
    ensures StartsUrl(u) ==> StartsUrl(r)
    ensures NoSpace(u) && NoSpace(id) ==> NoSpace(r)
  {
    if Contains(u, Host) then u
    else
      var q := Quote(u);
      var r := Template(id) + q;
      TemplateFacts(id, q);
      assert r[|Template(id)|..] == q;
      r
  }

  /** A match that does not mention the affiliate host becomes exactly the
      redirect followed by `quote` of the match. */
  lemma ConvertExact(u: string, id: string)
    requires !Contains(u, Host)
    ensures Convert(u, id) == Template(id) + Quote(u)
  {
    var r := Convert(u, id);
    QuoteUnique(u, r[|Template(id)|..]);
    assert r == r[..|Template(id)|] + r[|Template(id)|..];
  }

  /** One pass of `re.sub(url_pattern, convert_match, t)`. */
  function Rewrite(t: string, id: string): string
    decreases |t|
  {
    if |t| == 0 then []
    else if StartsUrl(t) then
      var u := UrlMatch(t);
      Convert(u, id) + Rewrite(t[|u|..], id)
    else [t[0]] + Rewrite(t[1..], id)
  }

  /** `monetize_links(text)` with `CUELINKS_ID` given as `id`: `None` when the
      variable is unset. An unset or empty ID disables the rewrite. */
  function MonetizeLinks(text: string, id: Option<string>): (r: string)
    ensures id.None? || id.value == [] ==> r == text
    ensures id.Some? && id.value != [] ==> r == Render(ConvertAll(Tokenize(text), id.value))
  {
    if id.None? || id.value == [] then text
    else
      RewriteByTokens(text, id.value);
      Rewrite(text, id.value)
  }

  /** A text in which the pattern matches nowhere comes back unchanged. */
  lemma {:induction false} NoMatchIdentity(t: string, id: string)
    requires forall i | 0 <= i < |t| :: !StartsUrl(t[i..])
    ensures Rewrite(t, id) == t
    decreases |t|
  {
    if |t| > 0 {
      assert !StartsUrl(t[0..]) && t[0..] == t;
      assert forall i | 0 <= i < |t| - 1 :: t[1..][i..] == t[i + 1..];
      NoMatchIdentity(t[1..], id);
      assert [t[0]] + t[1..] == t;
    }
  }

  /** Where the pattern matches, `http://` or `https://` occurs. */
  lemma StartsUrlOccurs(text: string, i: nat)
    requires i <= |text| && StartsUrl(text[i..])
    ensures OccursAt(text, "http://", i) || OccursAt(text, "https://", i)
  {
    var t := text[i..];
    if IsPrefix("https://", t) {
      assert t[..8] == text[i..i + 8];
    } else {
      assert t[..7] == text[i..i + 7];
    }
  }

  /** A text with no `http://` and no `https://` in it is returned unchanged,
      whatever the affiliate ID. */
  lemma NoSchemeIdentity(text: string, id: Option<string>)
    requires !Contains(text, "http://") && !Contains(text, "https://")
    ensures MonetizeLinks(text, id) == text
  {
    if id.Some? && id.value != [] {
      ContainsIff(text, "http://");
      ContainsIff(text, "https://");
      forall i | 0 <= i < |text|
        ensures !StartsUrl(text[i..])
      {
        if StartsUrl(text[i..]) {
          StartsUrlOccurs(text, i);
        }
      }
      NoMatchIdentity(text, id.value);
    }
  }

  /** Whether the pattern matches depends only on the first nine characters,
      and a leading `h` after the first position is never part of a scheme:
      two texts that agree before an `h` at index `j >= 1` match alike. */
  lemma WindowAgree(x: string, y: string, j: nat)
    requires 1 <= j < |x| && j < |y|
    requires x[..j] == y[..j]
    requires x[j] == 'h' && y[j] == 'h'
    ensures StartsUrl(x) == StartsUrl(y)
  {
    assert forall k | 0 <= k < j :: x[k] == x[..j][k] && y[k] == y[..j][k];
    StartsUrlChars(x);
    StartsUrlChars(y);
  }

  /** The rewritten text agrees with the original up to the first match, and a
      match starts with `h` in both. */
  lemma {:induction false} HeadShape(s: string, id: string) returns (j: nat)
    ensures j <= |s| && j <= |Rewrite(s, id)|
    ensures s[..j] == Rewrite(s, id)[..j]
    ensures j == |s| ==> Rewrite(s, id) == s
    ensures j < |s| ==> j < |Rewrite(s, id)| && s[j] == 'h' && Rewrite(s, id)[j] == 'h'
    decreases |s|
  {
    var r := Rewrite(s, id);
    if |s| == 0 {
      j := 0;
    } else if StartsUrl(s) {
      j := 0;
      MatchHead(s, id);
    } else {
      var tail := Rewrite(s[1..], id);
      var j' := HeadShape(s[1..], id);
      j := j' + 1;
      assert r == [s[0]] + tail;
      assert s == [s[0]] + s[1..];
      ConsPrefix(s[0], s[1..], tail, j');
    }
  }

  /** Agreement on a prefix survives putting the same character in front. */
  lemma ConsPrefix(c: char, a: string, b: string, j: nat)
    requires j <= |a| && j <= |b| && a[..j] == b[..j]
    ensures ([c] + a)[..j + 1] == ([c] + b)[..j + 1]
  {
    assert ([c] + a)[..j + 1] == [c] + a[..j];
    assert ([c] + b)[..j + 1] == [c] + b[..j];
  }

  /** A match starts with `h`, and so does its replacement. */
  lemma MatchHead(s: string, id: string)
    requires StartsUrl(s)
    ensures s[0] == 'h' && |Rewrite(s, id)| > 0 && Rewrite(s, id)[0] == 'h'
  {
    var u := UrlMatch(s);
    var c := Convert(u, id);
    assert Rewrite(s, id) == c + Rewrite(s[|u|..], id);
    StartsUrlChars(s);
    StartsUrlChars(c);
  }

  /** Whitespace never starts a match, so it is copied. */
  lemma SpaceHead(t: string, id: string)
    requires |t| > 0 && IsSpace(t[0])
    ensures |Rewrite(t, id)| > 0 && Rewrite(t, id)[0] == t[0]
  {
    StartsUrlChars(t);
  }

  /** A match followed by whitespace or nothing is matched again as a whole. */
  lemma MatchOfConcat(c: string, x: string)
    requires StartsUrl(c) && NoSpace(c)
    requires x == [] || IsSpace(x[0])
    ensures StartsUrl(c + x)
    ensures UrlMatch(c + x) == c
  {
    var t := c + x;
    assert forall i | 0 <= i < |c| :: t[i] == c[i];
    StartsUrlChars(c);
    StartsUrlChars(t);
    var u := UrlMatch(t);
    assert forall i | 0 <= i < |u| :: u[i] == t[i];
    assert |x| > 0 ==> t[|c|] == x[0];
    assert |u| == |c|;
    assert u == t[..|u|] == c;
  }

  /** One pass wraps every link it touches into a redirect that the next pass
      leaves alone, and copies everything else: a second pass changes
      nothing. The affiliate ID must be free of whitespace, or the redirect
      would split into several matches. */
  lemma {:induction false} RewriteIdempotent(t: string, id: string)
    requires NoSpace(id)
    ensures Rewrite(Rewrite(t, id), id) == Rewrite(t, id)
    decreases |t|
  {
    if |t| == 0 {
    } else if StartsUrl(t) {
      var u := UrlMatch(t);
      var rest := t[|u|..];
      var c := Convert(u, id);
      var r := Rewrite(rest, id);
      assert Rewrite(t, id) == c + r;
      RewriteIdempotent(rest, id);
      if |rest| > 0 {
        SpaceHead(rest, id);
      } else {
        assert r == [];
      }
      MatchOfConcat(c, r);
      assert (c + r)[|c|..] == r;
      assert Convert(c, id) == c;
    } else {
      var s := t[1..];
      var out := [t[0]] + Rewrite(s, id);
      assert Rewrite(t, id) == out;
      CopiedHead(t, id);
      assert out[1..] == Rewrite(s, id);
      RewriteIdempotent(s, id);
    }
  }

  /** A character the pattern does not match at is copied, and the pattern
      does not match at it in the output either. */
  lemma CopiedHead(t: string, id: string)
    requires |t| > 0 && !StartsUrl(t)
    ensures !StartsUrl([t[0]] + Rewrite(t[1..], id))
  {
    var s := t[1..];
    var out := [t[0]] + Rewrite(s, id);
    var j := HeadShape(s, id);
    if j == |s| {
      assert out == t;
    } else {
      assert t == [t[0]] + s;
      assert t[..j + 1] == [t[0]] + s[..j];
      assert out[..j + 1] == [t[0]] + Rewrite(s, id)[..j];
      WindowAgree(t, out, j + 1);
    }
  }

  /** `monetize_links(monetize_links(text)) == monetize_links(text)` for an
      affiliate ID without whitespace (or none at all). */
  lemma MonetizeIdempotent(text: string, id: Option<string>)
    requires id.None? || NoSpace(id.value)
    ensures MonetizeLinks(MonetizeLinks(text, id), id) == MonetizeLinks(text, id)
  {
    if id.Some? && id.value != [] {
      RewriteIdempotent(text, id.value);
    }
  }

  /* ---------------------------------------------------------------------
     The scan as a sequence of tokens: single characters the pattern does not
     start at, and the matches themselves.
     --------------------------------------------------------------------- */

  datatype Token = Plain(c: char) | Link(url: string)

  function TokenText(tok: Token): string {
    match tok
    case Plain(c) => [c]
    case Link(u) => u
  }

  /** The text a token sequence stands for. */
  function Render(toks: seq<Token>): string {
    if |toks| == 0 then [] else TokenText(toks[0]) + Render(toks[1..])
  }

  /** The condition a token must meet at index `k` of a leftmost-longest
      scan: a plain character is one the pattern does not match at, and a
      link is a whole match, followed by whitespace or by nothing. */
  ghost predicate TokenFits(toks: seq<Token>, k: int)
    requires 0 <= k < |toks|
  {
    match toks[k]
    case Plain(_) => !StartsUrl(Render(toks[k..]))
    case Link(u) =>
      && StartsUrl(u) && NoSpace(u)
      && (k + 1 < |toks| ==> toks[k + 1].Plain? && IsSpace(toks[k + 1].c))
  }

  /** `toks` is a leftmost-longest scan of `t` for the pattern. */
  ghost predicate IsScanOf(t: string, toks: seq<Token>) {
    && Render(toks) == t
    && forall k | 0 <= k < |toks| :: TokenFits(toks, k)
  }

  /** The scan `re.sub` performs, as tokens. */
  function Tokenize(t: string): (toks: seq<Token>)
    ensures IsScanOf(t, toks)
    decreases |t|
  {
    if |t| == 0 then []
    else if StartsUrl(t) then
      var u := UrlMatch(t);
      var rest := t[|u|..];
      var tail := Tokenize(rest);
      SpaceNotUrl(rest);
      ConsScan(Link(u), t, tail);
      [Link(u)] + tail
    else
      var tail := Tokenize(t[1..]);
      ConsScan(Plain(t[0]), t, tail);
      [Plain(t[0])] + tail
  }

  /** Whitespace is never where the pattern matches. */
  lemma SpaceNotUrl(t: string)
    ensures |t| > 0 && IsSpace(t[0]) ==> !StartsUrl(t)
  {
    StartsUrlChars(t);
  }

  /** Putting a fitting token in front of a scan of the rest of `t` gives a
      scan of `t`. */
  lemma ConsScan(tok: Token, t: string, tail: seq<Token>)
    requires IsPrefix(TokenText(tok), t)
    requires IsScanOf(t[|TokenText(tok)|..], tail)
    requires tok.Plain? ==> !StartsUrl(t)
    requires tok.Link? ==> StartsUrl(tok.url) && NoSpace(tok.url)
    requires tok.Link? && |tail| > 0 ==> tail[0].Plain? && IsSpace(tail[0].c)
    ensures IsScanOf(t, [tok] + tail)
  {
    var toks := [tok] + tail;
    assert toks[1..] == tail;
    assert Render(toks) == t;
    forall k | 0 <= k < |toks|
      ensures TokenFits(toks, k)
    {
      if k > 0 {
        assert toks[k..] == tail[k - 1..];
        assert TokenFits(tail, k - 1);
      }
    }
  }

  /** The tail of a scan is a scan of the text after the first token. */
  lemma ScanTail(t: string, toks: seq<Token>)
    requires |toks| > 0 && IsScanOf(t, toks)
    ensures IsPrefix(TokenText(toks[0]), t)
    ensures IsScanOf(t[|TokenText(toks[0])|..], toks[1..])
  {
    var w := TokenText(toks[0]);
    assert t == w + Render(toks[1..]);
    assert t[..|w|] == w && t[|w|..] == Render(toks[1..]);
    forall k | 0 <= k < |toks| - 1
      ensures TokenFits(toks[1..], k)
    {
      assert toks[1..][k..] == toks[k + 1..];
      assert TokenFits(toks, k + 1);
    }
  }

  /** A scheme followed by a non-space character still is, whatever follows. */
  lemma StartsUrlExtend(u: string, x: string)
    requires StartsUrl(u)
    ensures StartsUrl(u + x)
  {
    StartsUrlChars(u);
    StartsUrlChars(u + x);
  }

  /** There is exactly one leftmost-longest scan of a text, the one `re.sub`
      performs. */
  lemma {:induction false} ScanUnique(t: string, toks: seq<Token>)
    requires IsScanOf(t, toks)
    ensures toks == Tokenize(t)
    decreases |toks|
  {
    if |toks| > 0 {
      ScanTail(t, toks);
      var w := TokenText(toks[0]);
      var rest := t[|w|..];
      ScanUnique(rest, toks[1..]);
      assert TokenFits(toks, 0);
      assert toks[0..] == toks;
      match toks[0]
      case Plain(c) =>
        assert t == [c] + rest;
      case Link(u) =>
        assert t == u + rest;
        if |toks| > 1 {
          assert rest == TokenText(toks[1]) + Render(toks[2..]);
        }
        StartsUrlExtend(u, rest);
        MatchOfConcat(u, rest);
    }
  }

  /** The replacement applied to every link token; plain tokens stay. */
  function ConvertAll(toks: seq<Token>, id: string): (r: seq<Token>)
    ensures |r| == |toks|
    ensures forall k | 0 <= k < |toks| && toks[k].Plain? :: r[k] == toks[k]
    ensures forall k | 0 <= k < |toks| && toks[k].Link? :: r[k] == Link(Convert(toks[k].url, id))
  {
    if |toks| == 0 then []
    else
      var head := match toks[0]
        case Plain(c) => Plain(c)
        case Link(u) => Link(Convert(u, id));
      [head] + ConvertAll(toks[1..], id)
  }

  /** The per-token contract of the rewrite: its output is the scan of the
      input with every match replaced by `Convert` of it, and every other
      character kept, in order. */
  lemma {:induction false} RewriteByTokens(t: string, id: string)
    ensures Rewrite(t, id) == Render(ConvertAll(Tokenize(t), id))
    decreases |t|
  {
    if |t| > 0 {
      var toks := Tokenize(t);
      var out := ConvertAll(toks, id);
      assert out[1..] == ConvertAll(toks[1..], id);
      if StartsUrl(t) {
        var u := UrlMatch(t);
        RewriteByTokens(t[|u|..], id);
        assert toks[1..] == Tokenize(t[|u|..]);
      } else {
        RewriteByTokens(t[1..], id);
        assert toks[1..] == Tokenize(t[1..]);
      }
    }
  }
}
