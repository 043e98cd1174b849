/** The pure string functions of the note widget (app.js): escaping of text
    for markup, linkification of URLs, and the markup of the notes list. */
module Markup {
  import opened Records

  // ---------------------------------------------------------------------
  // Escaping (app.js:134-137)
  //
  // Assigning `textContent` and reading `innerHTML` back runs the "escaping
  // a string" step of HTML fragment serialisation in text mode (WHATWG HTML
  // Living Standard, section 13.3): `&`, U+00A0, `<` and `>` are replaced by
  // character references and every other character, quotes included, is
  // kept.
  // ---------------------------------------------------------------------

  /** The characters the serialiser replaces in text nodes. */
  predicate IsEscaped(c: char) {
    c == '&' || c == Nbsp || c == '<' || c == '>'
  }

  function EscapeChar(c: char): (r: string)
    ensures IsEscaped(c) ==> |r| > 1 && r[0] == '&'
    ensures !IsEscaped(c) ==> r == [c]
  {
    if c == '&' then "&amp;"
    else if c == Nbsp then "&nbsp;"
    else if c == '<' then "&lt;"
    else if c == '>' then "&gt;"
    else [c]
  }

  /** `xs.map(f).join('')` */
  function Join<T>(xs: seq<T>, f: T -> string): (r: string) {
    if xs == [] then "" else f(xs[0]) + Join(xs[1..], f)
  }

  lemma {:induction false} JoinAppend<T>(a: seq<T>, b: seq<T>, f: T -> string)
    ensures Join(a + b, f) == Join(a, f) + Join(b, f)
  {
    if a == [] {
      assert a + b == b;
    } else {
      var ab := a + b;
      assert ab[0] == a[0] && ab[1..] == a[1..] + b;
      calc {
        Join(ab, f);
        f(a[0]) + Join(a[1..] + b, f);
        { JoinAppend(a[1..], b, f); }
        f(a[0]) + (Join(a[1..], f) + Join(b, f));
        { ConcatAssoc(f(a[0]), Join(a[1..], f), Join(b, f)); }
        (f(a[0]) + Join(a[1..], f)) + Join(b, f);
      }
    }
  }

  lemma ConcatAssoc(x: string, y: string, z: string)
    ensures x + (y + z) == (x + y) + z
  {
  }

  /** `escapeHtml`: each character is replaced on its own. */
  function EscapeHtml(s: string): (r: string) {
    Join(s, EscapeChar)
  }

  /** The escaped text holds no `<`, `>` or no-break space, and keeps every
      quote of the input (and introduces none). */
  lemma {:induction false} EscapeHtmlSafe(s: string)
    ensures var r := EscapeHtml(s);
      && '<' !in r && '>' !in r && Nbsp !in r
      && ('"' in r <==> '"' in s)
      && ('\'' in r <==> '\'' in s)
  {
    if s != [] {
      EscapeHtmlSafe(s[1..]);
      assert s == [s[0]] + s[1..];
    }
  }

  /** Text with nothing to escape is returned as it is. */
  lemma {:induction false} EscapeHtmlUnchanged(s: string)
    requires forall i :: 0 <= i < |s| ==> !IsEscaped(s[i])
    ensures EscapeHtml(s) == s
  {
    if s != [] {
      EscapeHtmlUnchanged(s[1..]);
      assert s == [s[0]] + s[1..];
    }
  }

  /** Escaping works character by character, so it distributes over
      concatenation. */
  lemma EscapeHtmlAppend(a: string, b: string)
    ensures EscapeHtml(a + b) == EscapeHtml(a) + EscapeHtml(b)
  {
    JoinAppend(a, b, EscapeChar);
  }

  /** Decodes the four character references the serialiser produces; every
      other character is copied. */
  function Unescape(s: string): (r: string)
    decreases |s|
  {
    if s == [] then []
    else if |s| >= 5 && s[..5] == "&amp;" then "&" + Unescape(s[5..])
    else if |s| >= 6 && s[..6] == "&nbsp;" then [Nbsp] + Unescape(s[6..])
    else if |s| >= 4 && s[..4] == "&lt;" then "<" + Unescape(s[4..])
    else if |s| >= 4 && s[..4] == "&gt;" then ">" + Unescape(s[4..])
    else [s[0]] + Unescape(s[1..])
  }

  lemma UnescapeAmp(rest: string)
    ensures Unescape("&amp;" + rest) == "&" + Unescape(rest)
  {
    var e := "&amp;" + rest;
    assert e[..5] == "&amp;" && e[5..] == rest;
  }

  lemma UnescapeNbsp(rest: string)
    ensures Unescape("&nbsp;" + rest) == [Nbsp] + Unescape(rest)
  {
    var e := "&nbsp;" + rest;
    assert e[..6] == "&nbsp;" && e[6..] == rest;
    assert e[..5] != "&amp;" by { assert e[1] == 'n'; }
  }

  lemma UnescapeLt(rest: string)
    ensures Unescape("&lt;" + rest) == "<" + Unescape(rest)
  {
    var e := "&lt;" + rest;
    assert e[..4] == "&lt;" && e[4..] == rest;
    assert |e| < 5 || e[..5] != "&amp;" by { assert e[1] == 'l'; }
    assert |e| < 6 || e[..6] != "&nbsp;" by { assert e[1] == 'l'; }
  }

  lemma UnescapeGt(rest: string)
    ensures Unescape("&gt;" + rest) == ">" + Unescape(rest)
  {
    var e := "&gt;" + rest;
    assert e[..4] == "&gt;" && e[4..] == rest;
    assert |e| < 5 || e[..5] != "&amp;" by { assert e[1] == 'g'; }
    assert |e| < 6 || e[..6] != "&nbsp;" by { assert e[1] == 'g'; }
    assert e[..4] != "&lt;" by { assert e[1] == 'g'; }
  }

  lemma UnescapeKept(c: char, rest: string)
    requires c != '&'
    ensures Unescape([c] + rest) == [c] + Unescape(rest)
  {
    var e := [c] + rest;
    assert e[0] == c && e[1..] == rest;
  }

  lemma UnescapeEscapeChar(c: char, rest: string)
    ensures Unescape(EscapeChar(c) + rest) == [c] + Unescape(rest)
  {
    if c == '&' {
      UnescapeAmp(rest);
    } else if c == Nbsp {
      UnescapeNbsp(rest);
    } else if c == '<' {
      UnescapeLt(rest);
    } else if c == '>' {
      UnescapeGt(rest);
    } else {
      UnescapeKept(c, rest);
    }
  }

  /** Decoding the escaped text gives the original text back. */
  lemma {:induction false} UnescapeEscapeHtml(s: string)
    ensures Unescape(EscapeHtml(s)) == s
  {
    if s != [] {
      UnescapeEscapeHtml(s[1..]);
      UnescapeEscapeChar(s[0], EscapeHtml(s[1..]));
      assert s == [s[0]] + s[1..];
    }
  }

  // ---------------------------------------------------------------------
  // Linkification (app.js:30-35)
  //
  // `text.replace(/(https?:\/\/[^\s]+)/g, f)` scans left to right; at each
  // position it tries the pattern, replaces the (greedy, so longest) match by
  // `f(match)` and resumes after it, or keeps the character and moves on.
  // The scan is modelled as a split of the text into pieces: single
  // characters that stay as they are and URLs that become anchors.
  // ---------------------------------------------------------------------

  datatype Piece = Text(c: char) | Link(url: string)

  /** Length of the `https?://` part at the start of `s`, or 0. */
  function SchemeLen(s: string): (p: nat)
    ensures p == 0 || p == 7 || p == 8
    ensures p <= |s|
  {
    if |s| >= 8 && s[..8] == "https://" then 8
    else if |s| >= 7 && s[..7] == "http://" then 7
    else 0
  }

  /** Length of the run of non-whitespace characters `s` starts with. */
  function RunLen(s: string): (n: nat)
    ensures n <= |s|
    ensures forall i :: 0 <= i < n ==> !IsWhitespace(s[i])
    ensures n < |s| ==> IsWhitespace(s[n])
  {
    if s == [] || IsWhitespace(s[0]) then 0 else 1 + RunLen(s[1..])
  }

  /** Length of the match of `https?:\/\/[^\s]+` that starts at the start of
      `s`, or 0 when the pattern does not match there. */
  function MatchLen(s: string): (m: nat)
    ensures m <= |s|
  {
    var p := SchemeLen(s);
    if p == 0 then 0
    else
      var n := RunLen(s[p..]);
      if n == 0 then 0 else p + n
  }

  function Tokenize(s: string): (ps: seq<Piece>)
    decreases |s|
  {
    if s == [] then []
    else
      var m := MatchLen(s);
      if m > 0 then [Link(s[..m])] + Tokenize(s[m..])
      else [Text(s[0])] + Tokenize(s[1..])
  }

  /** The markup `<body>` of a tag. */
  function Tag(body: string): (r: string) {
    "<" + body + ">"
  }

  /** The inside of the opening anchor tag for a URL. */
  function AnchorAttributes(url: string): (r: string) {
    "a href=\"" + url + "\" target=\"_blank\" rel=\"noopener noreferrer\""
  }

  /** The replacement the widget builds for a matched URL,
      `<a href="URL" target="_blank" rel="noopener noreferrer">URL</a>`: the
      URL is both the `href` value and the link text, inserted as it is. */
  function Anchor(url: string): (r: string) {
    Tag(AnchorAttributes(url)) + url + Tag("/a")
  }

  function RenderPiece(p: Piece): (r: string) {
    match p
    case Text(c) => [c]
    case Link(u) => Anchor(u)
  }

  function Render(ps: seq<Piece>): (r: string) {
    if ps == [] then [] else RenderPiece(ps[0]) + Render(ps[1..])
  }

  /** The text a piece stands for: the character, or the URL itself. */
  function PieceText(p: Piece): (r: string) {
    match p
    case Text(c) => [c]
    case Link(u) => u
  }

  /** The text of the pieces with the anchor markup left out. */
  function Plain(ps: seq<Piece>): (r: string) {
    if ps == [] then [] else PieceText(ps[0]) + Plain(ps[1..])
  }

  /** `linkify` */
  function Linkify(s: string): (r: string) {
    Render(Tokenize(s))
  }

  // The pattern's language, stated directly: a URL is `http://` or
  // `https://` followed by at least one more character, with no whitespace
  // anywhere.

  ghost predicate IsUrl(u: string) {
    && ((|u| > 7 && u[..7] == "http://") || (|u| > 8 && u[..8] == "https://"))
    && forall i :: 0 <= i < |u| ==> !IsWhitespace(u[i])
  }

  /** The pattern matches no prefix of `s`. */
  ghost predicate NoUrlStartsAt(s: string) {
    forall k :: 0 < k <= |s| ==> !IsUrl(s[..k])
  }

  /** The pattern matches nowhere in `s`. */
  ghost predicate NoUrlIn(s: string) {
    forall i :: 0 <= i <= |s| ==> NoUrlStartsAt(s[i..])
  }

  /** `ps` is the leftmost-longest split of `s`: each link is a URL that is a
      prefix of the rest of the text and is followed by whitespace or the end
      (so no longer match exists), and a character is kept as text only
      where no URL starts. */
  ghost predicate Scanned(s: string, ps: seq<Piece>)
    decreases |ps|
  {
    if ps == [] then s == []
    else
      match ps[0]
      case Link(u) =>
        && |u| <= |s| && s[..|u|] == u && IsUrl(u)
        && (|u| == |s| || IsWhitespace(s[|u|]))
        && Scanned(s[|u|..], ps[1..])
      case Text(c) =>
        && s != [] && s[0] == c && NoUrlStartsAt(s)
        && Scanned(s[1..], ps[1..])
  }

  lemma MatchLenIsUrl(s: string)
    requires MatchLen(s) > 0
    ensures IsUrl(s[..MatchLen(s)])
    ensures MatchLen(s) == |s| || IsWhitespace(s[MatchLen(s)])
  {
    var m := MatchLen(s);
    var p := SchemeLen(s);
    var u := s[..m];
    assert s[p..][..m - p] == u[p..];
    if p == 8 {
      assert u[..8] == s[..8];
    } else {
      assert u[..7] == s[..7];
    }
    forall i | 0 <= i < |u| ensures !IsWhitespace(u[i]) {
      if i >= p {
        assert u[i] == s[p..][i - p];
      } else if p == 8 {
        assert u[i] == "https://"[i];
      } else {
        assert u[i] == "http://"[i];
      }
    }
    if m < |s| {
      assert s[m] == s[p..][m - p];
    }
  }

  lemma MatchLenZeroNoUrl(s: string)
    requires MatchLen(s) == 0
    ensures NoUrlStartsAt(s)
  {
    var p := SchemeLen(s);
    forall k | 0 < k <= |s| ensures !IsUrl(s[..k]) {
      var u := s[..k];
      if p == 0 {
        if |u| > 7 { assert u[..7] == s[..7]; }
        if |u| > 8 { assert u[..8] == s[..8]; }
      } else if k > p {
        assert u[p] == s[p..][0];
      } else if p == 8 && k == 8 {
        assert u[4] == s[..8][4] == 's';
      }
    }
  }

  lemma MatchLenLongest(s: string, k: nat)
    requires 0 < k <= |s| && IsUrl(s[..k])
    requires k == |s| || IsWhitespace(s[k])
    ensures MatchLen(s) == k
  {
    var u := s[..k];
    var p := if |u| > 8 && u[..8] == "https://" then 8 else 7;
    if p == 8 {
      assert s[..8] == u[..8];
    } else {
      assert |u| > 7 && u[..7] == "http://";
      assert s[..7] == u[..7];
      assert |s| < 8 || s[..8] != "https://" by {
        if |s| >= 8 { assert s[..8][4] == u[4] == ':'; }
      }
    }
    assert SchemeLen(s) == p;
    var t := s[p..];
    assert forall j :: 0 <= j < k ==> !IsWhitespace(s[j]) by {
      forall j | 0 <= j < k ensures !IsWhitespace(s[j]) {
        assert u[j] == s[j];
      }
    }
    SuffixNotBlank(s, p, k);
    if k < |s| {
      assert t[k - p] == s[k];
    }
  }

  lemma SuffixNotBlank(s: string, p: nat, k: nat)
    requires p <= k <= |s|
    requires forall j :: 0 <= j < k ==> !IsWhitespace(s[j])
    ensures forall i :: 0 <= i < k - p ==> !IsWhitespace(s[p..][i])
  {
    forall i | 0 <= i < k - p ensures !IsWhitespace(s[p..][i]) {
      assert s[p..][i] == s[p + i];
    }
  }

  /** Whatever the pattern matches at the start of a text is a URL. */
  lemma MatchLenUrlPrefix(s: string)
    ensures MatchLen(s) > 0 ==> IsUrl(s[..MatchLen(s)])
  {
    if MatchLen(s) > 0 {
      MatchLenIsUrl(s);
    }
  }

  /** The scan splits `s` leftmost-longest. */
  lemma {:induction false} TokenizeScanned(s: string)
    ensures Scanned(s, Tokenize(s))
    decreases |s|
  {
    if s != [] {
      var m := MatchLen(s);
      if m > 0 {
        MatchLenIsUrl(s);
        TokenizeScanned(s[m..]);
        assert Tokenize(s)[1..] == Tokenize(s[m..]);
      } else {
        MatchLenZeroNoUrl(s);
        TokenizeScanned(s[1..]);
        assert Tokenize(s)[1..] == Tokenize(s[1..]);
      }
    }
  }

  /** There is only one leftmost-longest split, the one the scan makes. */
  lemma {:induction false} ScannedUnique(s: string, ps: seq<Piece>)
    requires Scanned(s, ps)
    ensures ps == Tokenize(s)
    decreases |ps|
  {
    if ps != [] {
      match ps[0]
      case Link(u) =>
        MatchLenLongest(s, |u|);
        ScannedUnique(s[|u|..], ps[1..]);
        assert s[..|u|] == u;
        assert Tokenize(s) == [Link(u)] + Tokenize(s[|u|..]);
        assert ps == [ps[0]] + ps[1..];
      case Text(c) =>
        MatchLenUrlPrefix(s);
        assert MatchLen(s) == 0;
        ScannedUnique(s[1..], ps[1..]);
        assert Tokenize(s) == [Text(c)] + Tokenize(s[1..]);
        assert ps == [ps[0]] + ps[1..];
    }
  }

  /** Taking each inserted anchor back out of the pieces, keeping only its
      link text, gives the input. */
  lemma PlainTokenize(s: string)
    ensures Plain(Tokenize(s)) == s
  {
    TokenizeScanned(s);
    PlainScanned(s, Tokenize(s));
  }

  /** The pieces of any leftmost-longest split spell the text. */
  lemma {:induction false} PlainScanned(s: string, ps: seq<Piece>)
    requires Scanned(s, ps)
    ensures Plain(ps) == s
    decreases |ps|
  {
    if ps != [] {
      var t := PieceText(ps[0]);
      assert |t| <= |s| && s[..|t|] == t;
      PlainScanned(s[|t|..], ps[1..]);
      assert s == s[..|t|] + s[|t|..];
    }
  }

  function LinkCount(ps: seq<Piece>): (k: nat) {
    if ps == [] then 0 else (if ps[0].Link? then 1 else 0) + LinkCount(ps[1..])
  }

  lemma {:induction false} RenderWithoutLinks(ps: seq<Piece>)
    ensures LinkCount(ps) == 0 ==> Render(ps) == Plain(ps)
    ensures LinkCount(ps) > 0 ==> |Render(ps)| > |Plain(ps)|
    ensures |Render(ps)| >= |Plain(ps)|
  {
    if ps != [] {
      RenderWithoutLinks(ps[1..]);
    }
  }

  lemma {:induction false} LinkCountNoUrl(s: string)
    ensures LinkCount(Tokenize(s)) == 0 <==> NoUrlIn(s)
    decreases |s|
  {
    if s == [] {
      assert NoUrlIn(s) by {
        forall i | 0 <= i <= |s| ensures NoUrlStartsAt(s[i..]) { }
      }
    } else if MatchLen(s) > 0 {
      MatchLenIsUrl(s);
      assert s[0..] == s;
      assert !NoUrlStartsAt(s[0..]);
    } else {
      MatchLenZeroNoUrl(s);
      LinkCountNoUrl(s[1..]);
      if NoUrlIn(s) {
        forall i | 0 <= i <= |s[1..]| ensures NoUrlStartsAt(s[1..][i..]) {
          assert s[1..][i..] == s[i + 1..];
        }
      }
      if NoUrlIn(s[1..]) {
        forall i | 0 <= i <= |s| ensures NoUrlStartsAt(s[i..]) {
          if i == 0 {
            assert s[0..] == s;
          } else {
            assert s[1..][i - 1..] == s[i..];
          }
        }
      }
    }
  }

  /** Text is returned unchanged exactly when the pattern matches nowhere in
      it. */
  lemma LinkifyUnchangedIffNoUrl(s: string)
    ensures Linkify(s) == s <==> NoUrlIn(s)
  {
    LinkCountNoUrl(s);
    RenderWithoutLinks(Tokenize(s));
    PlainTokenize(s);
  }

  /** A text that is one URL as a whole becomes one anchor around it. */
  lemma WholeUrlLinkified(u: string)
    requires IsUrl(u)
    ensures Linkify(u) == Anchor(u)
  {
    MatchLenLongest(u, |u|);
    assert u[..|u|] == u;
    assert u[|u|..] == [];
    assert Tokenize(u) == [Link(u)];
    assert Render([Link(u)]) == Anchor(u) + Render([]);
  }

  // Removing the inserted markup. In escaped text no `<` or `>` remains, so
  // every tag in the linkified text is one the anchor template inserted and
  // deleting all tags deletes exactly the inserted prefixes and suffixes.

  /** The rest of `s` after the first `>`, or nothing when there is none. */
  function AfterTag(s: string): (r: string)
    ensures |r| <= |s|
  {
    if s == [] then []
    else if s[0] == '>' then s[1..]
    else AfterTag(s[1..])
  }

  /** Deletes every tag: each `<` up to and including the next `>`. */
  function StripTags(s: string): (r: string)
    decreases |s|
  {
    if s == [] then []
    else if s[0] == '<' then StripTags(AfterTag(s[1..]))
    else [s[0]] + StripTags(s[1..])
  }

  lemma {:induction false} AfterTagSkips(p: string, x: string)
    requires '>' !in p
    ensures AfterTag(p + ">" + x) == x
  {
    if p != [] {
      assert (p + ">" + x)[1..] == p[1..] + ">" + x;
      AfterTagSkips(p[1..], x);
    } else {
      assert (p + ">" + x)[1..] == x;
    }
  }

  lemma {:induction false} StripTagsKeepsText(u: string, x: string)
    requires '<' !in u
    ensures StripTags(u + x) == u + StripTags(x)
  {
    if u != [] {
      assert (u + x)[1..] == u[1..] + x;
      StripTagsKeepsText(u[1..], x);
      assert u == [u[0]] + u[1..];
    } else {
      assert u + x == x;
    }
  }

  lemma StripTagsTag(body: string, x: string)
    requires '>' !in body
    ensures StripTags(Tag(body) + x) == StripTags(x)
  {
    var t := Tag(body) + x;
    assert t[0] == '<';
    assert t[1..] == body + ">" + x;
    AfterTagSkips(body, x);
  }

  lemma StripTagsAnchor(u: string, x: string)
    requires '<' !in u && '>' !in u
    ensures StripTags(Anchor(u) + x) == u + StripTags(x)
  {
    assert '>' !in AnchorAttributes(u) by {
      var pre := "a href=\"";
      var post := "\" target=\"_blank\" rel=\"noopener noreferrer\"";
      assert AnchorAttributes(u) == pre + u + post;
      assert '>' !in pre && '>' !in post;
    }
    assert Anchor(u) + x == Tag(AnchorAttributes(u)) + (u + (Tag("/a") + x));
    StripTagsTag(AnchorAttributes(u), u + (Tag("/a") + x));
    StripTagsKeepsText(u, Tag("/a") + x);
    StripTagsTag("/a", x);
  }

  ghost predicate AngleFree(s: string) {
    '<' !in s && '>' !in s
  }

  ghost predicate PiecesAngleFree(ps: seq<Piece>) {
    forall i :: 0 <= i < |ps| ==> (match ps[i]
                                   case Text(c) => c != '<' && c != '>'
                                   case Link(u) => AngleFree(u))
  }

  lemma {:induction false} StripTagsRender(ps: seq<Piece>)
    requires PiecesAngleFree(ps)
    ensures StripTags(Render(ps)) == Plain(ps)
  {
    if ps != [] {
      assert PiecesAngleFree(ps[1..]) by {
        forall i | 0 <= i < |ps[1..]| ensures ps[1..][i] == ps[i + 1] { }
      }
      StripTagsRender(ps[1..]);
      match ps[0]
      case Text(c) =>
        StripTagsKeepsText([c], Render(ps[1..]));
      case Link(u) =>
        StripTagsAnchor(u, Render(ps[1..]));
    }
  }

  lemma {:induction false} TokenizeAngleFree(s: string)
    requires AngleFree(s)
    ensures PiecesAngleFree(Tokenize(s))
    decreases |s|
  {
    if s != [] {
      var m := MatchLen(s);
      var ps := Tokenize(s);
      if m > 0 {
        TokenizeAngleFree(s[m..]);
        assert ps[1..] == Tokenize(s[m..]);
        assert AngleFree(s[..m]) by {
          assert forall c :: c in s[..m] ==> c in s;
        }
      } else {
        TokenizeAngleFree(s[1..]);
        assert ps[1..] == Tokenize(s[1..]);
      }
      assert forall i :: 1 <= i < |ps| ==> ps[i] == ps[1..][i - 1];
    }
  }

  /** Deleting every inserted anchor prefix and suffix from linkified text
      without angle brackets restores the text. */
  lemma StripTagsLinkify(s: string)
    requires AngleFree(s)
    ensures StripTags(Linkify(s)) == s
  {
    TokenizeAngleFree(s);
    StripTagsRender(Tokenize(s));
    PlainTokenize(s);
  }

  /** The content pipeline of a note card loses nothing: removing the
      anchors and decoding the character references gives back the note's
      content. */
  lemma ContentRoundTrip(content: string)
    ensures Unescape(StripTags(Linkify(EscapeHtml(content)))) == content
  {
    EscapeHtmlSafe(content);
    StripTagsLinkify(EscapeHtml(content));
    UnescapeEscapeHtml(content);
  }

  /** Quotes are not escaped, so a `"` inside a URL lands in the `href` value
      as it is and closes the attribute early: whatever follows it in the
      URL is read as further attributes of the anchor. */
  lemma QuoteEndsHref(u: string)
    requires IsUrl(u)
    requires forall i :: 0 <= i < |u| ==> !IsEscaped(u[i])
    ensures Linkify(EscapeHtml(u)) == Anchor(u)
  {
    EscapeHtmlUnchanged(u);
    WholeUrlLinkified(u);
  }

  /** An instance: the content `http://x"onclick="f()` yields an anchor
      whose `href` value is `http://x`, followed by an `onclick` attribute
      taken from the note's content. */
  lemma QuoteEndsHrefExample()
    ensures var u := "http://x\"onclick=\"f()";
      Linkify(EscapeHtml(u)) == Anchor(u)
  {
    var u := "http://x\"onclick=\"f()";
    assert u[..7] == "http://";
    assert forall i :: 0 <= i < |u| ==> !IsEscaped(u[i]) && !IsWhitespace(u[i]);
    QuoteEndsHref(u);
  }

  /** A no-break space ends a URL in the text the user wrote, but escaping
      turns it into `&nbsp;`, which is not whitespace: the anchor runs on
      across it, over the URL and the word after it, and its `href` holds the
      character reference. */
  lemma NbspJoinsUrl(u: string, w: string)
    requires IsUrl(u) && w != []
    requires forall i :: 0 <= i < |u| ==> !IsEscaped(u[i])
    requires forall i :: 0 <= i < |w| ==> !IsEscaped(w[i]) && !IsWhitespace(w[i])
    ensures !IsUrl(u + ([Nbsp] + w))
    ensures Linkify(EscapeHtml(u + ([Nbsp] + w))) == Anchor(u + ("&nbsp;" + w))
  {
    var s := u + ([Nbsp] + w);
    assert s[|u|] == Nbsp;
    var x := "&nbsp;" + w;
    NbspEntityNotBlank(w);
    IsUrlExtend(u, x);
    EscapeAroundNbsp(u, w);
    WholeUrlLinkified(u + x);
  }

  lemma NbspEntityNotBlank(w: string)
    requires forall i :: 0 <= i < |w| ==> !IsWhitespace(w[i])
    ensures forall i :: 0 <= i < |w| + 6 ==> !IsWhitespace(("&nbsp;" + w)[i])
  {
    var x := "&nbsp;" + w;
    forall i | 0 <= i < |x| ensures !IsWhitespace(x[i]) {
      if i < 6 {
        assert x[i] == "&nbsp;"[i];
      } else {
        assert x[i] == w[i - 6];
      }
    }
  }

  /** A URL followed by more non-whitespace is still a URL. */
  lemma IsUrlExtend(u: string, x: string)
    requires IsUrl(u)
    requires forall i :: 0 <= i < |x| ==> !IsWhitespace(x[i])
    ensures IsUrl(u + x)
  {
    var e := u + x;
    assert e[..|u|] == u;
    if |u| > 8 && u[..8] == "https://" {
      assert e[..8] == u[..8];
    } else {
      assert e[..7] == u[..7];
    }
    forall i | 0 <= i < |e| ensures !IsWhitespace(e[i]) {
      if i < |u| {
        assert e[i] == u[i];
      } else {
        assert e[i] == x[i - |u|];
      }
    }
  }

  lemma EscapeAroundNbsp(p: string, q: string)
    requires forall i :: 0 <= i < |p| ==> !IsEscaped(p[i])
    requires forall i :: 0 <= i < |q| ==> !IsEscaped(q[i])
    ensures EscapeHtml(p + ([Nbsp] + q)) == p + ("&nbsp;" + q)
  {
    var t := [Nbsp] + q;
    EscapeHtmlUnchanged(q);
    assert EscapeHtml(t) == "&nbsp;" + q by {
      assert t[0] == Nbsp && t[1..] == q;
    }
    EscapeHtmlUnchanged(p);
    EscapeHtmlAppend(p, t);
  }

  // ---------------------------------------------------------------------
  // The notes list (app.js:37-62)
  // ---------------------------------------------------------------------

  /** The placeholder shown when there are no notes. */
  function EmptyState(): (r: string) {
    "<div class=\"empty-state\"><p>Aucune note pour le moment.</p></div>"
  }

  function Spaces(n: nat): (r: string)
    ensures |r| == n && forall i :: 0 <= i < n ==> r[i] == ' '
  {
    seq(n, _ => ' ')
  }

  /** The edit and delete buttons of a card, only for the `admin` role. */
  function Actions(id: int, role: string): (r: string)
    ensures r == "" <==> role != "admin"
  {
    if role == "admin" then
      "\n" + Spaces(20) + "<div class=\"note-actions\">\n"
      + Spaces(24) + "<button class=\"edit-btn\" onclick=\"editNote(" + Decimal(id) + ")\">Modifier</button>\n"
      + Spaces(24) + "<button class=\"delete-btn\" onclick=\"deleteNote(" + Decimal(id) + ")\">Supprimer</button>\n"
      + Spaces(20) + "</div>\n" + Spaces(16)
    else ""
  }

  /** The card template, filled with the id text, the action block and the
      already converted title and content. */
  function CardMarkup(idText: string, actions: string, titleHtml: string, contentHtml: string): (r: string) {
    "\n" + Spaces(16) + "<div class=\"note-card\" data-id=\"" + idText + "\">\n"
    + Spaces(20) + actions + "\n"
    + Spaces(20) + "<h3>" + titleHtml + "</h3>\n"
    + Spaces(20) + "<p>" + contentHtml + "</p>\n"
    + Spaces(16) + "</div>\n" + Spaces(12)
  }

  function Card(note: Note, role: string): (r: string) {
    CardMarkup(Decimal(note.id), Actions(note.id, role),
               EscapeHtml(note.title), Linkify(EscapeHtml(note.content)))
  }

  lemma {:induction false} JoinPointwise<T>(xs: seq<T>, f: T -> string, g: T -> string)
    requires forall i :: 0 <= i < |xs| ==> f(xs[i]) == g(xs[i])
    ensures Join(xs, f) == Join(xs, g)
  {
    if xs != [] {
      JoinPointwise(xs[1..], f, g);
    }
  }

  function Cards(notes: seq<Note>, role: string): (r: string) {
    Join(notes, n => Card(n, role))
  }

  /** `renderNotes`, as the markup it assigns to the list: the empty-state
      block when there are no notes, the cards otherwise. */
  function RenderNotes(notes: seq<Note>, role: string): (r: string)
    ensures r == EmptyState() <==> notes == []
  {
    if |notes| == 0 then EmptyState()
    else
      assert |Cards(notes, role)| >= |Card(notes[0], role)| > |EmptyState()|;
      Cards(notes, role)
  }

  /** One card per note, in the order of the notes: the markup of a list is
      the markup of its first part followed by that of the rest. */
  lemma RenderNotesAppend(a: seq<Note>, b: seq<Note>, role: string)
    requires a != [] && b != []
    ensures RenderNotes(a + b, role) == RenderNotes(a, role) + RenderNotes(b, role)
  {
    JoinAppend(a, b, n => Card(n, role));
  }

  /** A single note renders as its card: escaped title, escaped then
      linkified content, and the action block of the role. */
  lemma RenderOneNote(n: Note, role: string)
    ensures RenderNotes([n], role)
         == CardMarkup(Decimal(n.id), Actions(n.id, role), EscapeHtml(n.title), Linkify(EscapeHtml(n.content)))
  {
    var f := (m: Note) => Card(m, role);
    assert [n][1..] == [];
    assert Join([n], f) == f(n) + Join([], f);
  }

  /** For any role other than `admin` every card has an empty action
      block, so all such roles see the same markup. */
  lemma ReaderCardsHaveNoActions(notes: seq<Note>, role: string)
    requires role != "admin"
    ensures RenderNotes(notes, role)
         == if notes == [] then EmptyState()
            else Join(notes, (n: Note) => CardMarkup(Decimal(n.id), "", EscapeHtml(n.title), Linkify(EscapeHtml(n.content))))
  {
    JoinPointwise(notes, n => Card(n, role),
                  (n: Note) => CardMarkup(Decimal(n.id), "", EscapeHtml(n.title), Linkify(EscapeHtml(n.content))));
  }
}
