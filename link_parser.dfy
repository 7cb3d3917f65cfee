/** `ParseLink` from src/components/Questions.tsx: the answer text is rewritten
    into HTML in two global, left-to-right passes. The first wraps every match
    of `/(https?:\/\/[^\s]+)/g` in an anchor; the second replaces every
    `@MarianaRolfo` with a fixed Twitter anchor. Neither pass rescans what it
    inserted, and nothing is escaped. */
module LinkParser {
  import opened Text

  const HttpScheme: string := "http://"
  const HttpsScheme: string := "https://"
  const Mention: string := "@MarianaRolfo"
  /** The profile the mention links to. */
  const MentionHref: string := "https://twitter.com/MarianaRolfo"
  /** The opening of the mention's anchor, up to its `href` value. */
  const MentionAnchorOpen: string := "<a target=\"_blank\" class=\"text-blue-500\" href=\""
  /** The rest of the mention's anchor, after its `href` value. */
  const MentionAnchorClose: string := "\">" + Mention + "</a>"
  /** What every `@MarianaRolfo` becomes. */
  const MentionAnchor: string := MentionAnchorOpen + MentionHref + MentionAnchorClose

  /** The replacement `'<a href="$1">$1</a>'` for the matched URL `url`. */
  function Anchor(url: string): string
  {
    "<a href=\"" + url + "\">" + url + "</a>"
  }

  // ---------------------------------------------------------------------------
  // The URL pattern

  /** Length of the `https?://` the string starts with, 0 if none. */
  function SchemeLen(s: string): (n: nat)
    ensures n == 8 <==> StartsWith(s, HttpsScheme)
    ensures n == 7 <==> StartsWith(s, HttpScheme)
    ensures n == 0 <==> !StartsWith(s, HttpScheme) && !StartsWith(s, HttpsScheme)
    ensures n <= |s|
  {
    if StartsWith(s, HttpsScheme) then
      assert s[4] == s[..8][4] == 's';
      8
    else if StartsWith(s, HttpScheme) then 7
    else 0
  }

  /** Length of the longest prefix of `s` free of white space: what the greedy
      `[^\s]+` consumes. */
  function NonSpaceRun(s: string): (n: nat)
    ensures n <= |s|
  {
    if |s| == 0 || IsSpace(s[0]) then 0 else 1 + NonSpaceRun(s[1..])
  }

  /** The run is maximal: no white space inside it, and white space or the end
      of the string right after it. */
  lemma {:induction false} NonSpaceRunMaximal(s: string)
    ensures forall i :: 0 <= i < NonSpaceRun(s) ==> !IsSpace(s[i])
    ensures NonSpaceRun(s) == |s| || IsSpace(s[NonSpaceRun(s)])
  {
    if |s| > 0 && !IsSpace(s[0]) {
      NonSpaceRunMaximal(s[1..]);
      forall i | 1 <= i < NonSpaceRun(s) ensures !IsSpace(s[i]) {
        assert s[i] == s[1..][i - 1];
      }
    }
  }

  /** Length of the URL match that starts at the beginning of `s`, 0 when the
      pattern does not match there. A match is a case-sensitive `http://` or
      `https://`, at least one non-white-space character, and then every
      following non-white-space character. */
  function UrlMatchLen(s: string): (n: nat)
    ensures n > 0 <==>
      || (StartsWith(s, HttpsScheme) && 8 < |s| && !IsSpace(s[8]))
      || (StartsWith(s, HttpScheme) && 7 < |s| && !IsSpace(s[7]))
    ensures n <= |s|
  {
    var k := SchemeLen(s);
    if k > 0 && k < |s| && !IsSpace(s[k]) then k + NonSpaceRun(s[k..]) else 0
  }

  /** A match extends past the scheme over the maximal run of non-white-space
      characters: none inside it, and white space or the end right after it. */
  lemma UrlMatchExtent(s: string)
    requires UrlMatchLen(s) > 0
    ensures SchemeLen(s) < UrlMatchLen(s)
    ensures forall i :: 0 <= i < UrlMatchLen(s) ==> !IsSpace(s[i])
    ensures UrlMatchLen(s) == |s| || IsSpace(s[UrlMatchLen(s)])
  {
    var k := SchemeLen(s);
    var scheme := if k == 8 then HttpsScheme else HttpScheme;
    assert s[..k] == scheme;
    forall i | 0 <= i < k ensures !IsSpace(s[i]) {
      assert s[i] == scheme[i];
    }
    var m := NonSpaceRun(s[k..]);
    NonSpaceRunMaximal(s[k..]);
    forall i | k <= i < k + m ensures !IsSpace(s[i]) {
      assert s[i] == s[k..][i - k];
    }
  }

  /** No URL match starts anywhere in `s`. */
  ghost predicate NoUrlMatch(s: string)
  {
    forall i :: 0 <= i < |s| ==> UrlMatchLen(s[i..]) == 0
  }

  /** No `@MarianaRolfo` occurs anywhere in `s`. */
  ghost predicate NoMention(s: string)
  {
    forall i :: 0 <= i < |s| ==> !StartsWith(s[i..], Mention)
  }

  // ---------------------------------------------------------------------------
  // The two passes

  /** `text.replace(urlRegex, '<a href="$1">$1</a>')`: scans left to right; at a
      match, emits its anchor and resumes after the match; elsewhere copies one
      character. */
  function UrlPass(s: string): string
    decreases |s|
  {
    if |s| == 0 then []
    else
      var n := UrlMatchLen(s);
      if n > 0 then Anchor(s[..n]) + UrlPass(s[n..])
      else [s[0]] + UrlPass(s[1..])
  }

  /** `text.replace(/@MarianaRolfo/g, MentionAnchor)`. */
  function MentionPass(s: string): string
    decreases |s|
  {
    if |s| == 0 then []
    else if StartsWith(s, Mention) then MentionAnchor + MentionPass(s[|Mention|..])
    else [s[0]] + MentionPass(s[1..])
  }

  /** `ParseLink(text)`: the URL pass first, then the mention pass. */
  function ParseLink(text: string): string
  {
    MentionPass(UrlPass(text))
  }

  // ---------------------------------------------------------------------------
  // Text without matches is copied

  /** Where no match starts, the first character is copied. */
  lemma UrlPassCopies(s: string)
    requires |s| > 0 && UrlMatchLen(s) == 0
    ensures UrlPass(s) == [s[0]] + UrlPass(s[1..])
  {
  }

  /** Characters at which no match starts are copied verbatim, and the pass
      goes on after them. */
  lemma {:induction false} UrlPassPlainPrefix(p: string, q: string)
    requires forall i :: 0 <= i < |p| ==> UrlMatchLen((p + q)[i..]) == 0
    ensures UrlPass(p + q) == p + UrlPass(q)
    decreases |p|
  {
    if |p| == 0 {
      assert p + q == q;
      assert p + UrlPass(q) == UrlPass(q);
    } else {
      var s := p + q;
      var s1 := s[1..];
      assert s1 == p[1..] + q;
      assert UrlMatchLen(s) == 0 by { assert s[0..] == s; }
      assert forall i :: 0 <= i < |p[1..]| ==> UrlMatchLen((p[1..] + q)[i..]) == 0 by {
        forall i | 0 <= i < |p[1..]|
          ensures UrlMatchLen((p[1..] + q)[i..]) == 0
        {
          assert (p[1..] + q)[i..] == s[i + 1..];
        }
      }
      UrlPassPlainPrefix(p[1..], q);
      UrlPassCopies(s);
      var b := UrlPass(q);
      ConsAppend(p, b);
    }
  }

  /** Each match adds at least 15 characters of markup, so the URL pass never
      shrinks its input, and it keeps the length exactly when nothing matches. */
  lemma {:induction false} UrlPassLength(s: string)
    ensures |UrlPass(s)| >= |s|
    ensures |UrlPass(s)| == |s| <==> NoUrlMatch(s)
    decreases |s|
  {
    if |s| > 0 {
      var n := UrlMatchLen(s);
      if n > 0 {
        UrlPassLength(s[n..]);
        assert UrlMatchLen(s[0..]) > 0 by { assert s[0..] == s; }
      } else {
        UrlPassLength(s[1..]);
        if NoUrlMatch(s) {
          assert NoUrlMatch(s[1..]) by {
            forall i | 0 <= i < |s[1..]| ensures UrlMatchLen(s[1..][i..]) == 0 {
              assert s[1..][i..] == s[i + 1..];
            }
          }
        } else {
          var j :| 0 <= j < |s| && UrlMatchLen(s[j..]) != 0;
          assert j != 0 by { assert s[0..] == s; }
          assert s[1..][j - 1..] == s[j..];
        }
      }
    }
  }

  /** Text in which no URL matches is copied verbatim by the URL pass. */
  lemma {:induction false} UrlPassNoMatch(s: string)
    requires NoUrlMatch(s)
    ensures UrlPass(s) == s
    decreases |s|
  {
    if |s| > 0 {
      assert UrlMatchLen(s) == 0 by { assert s[0..] == s; }
      assert NoUrlMatch(s[1..]) by {
        forall i | 0 <= i < |s[1..]| ensures UrlMatchLen(s[1..][i..]) == 0 {
          assert s[1..][i..] == s[i + 1..];
        }
      }
      UrlPassNoMatch(s[1..]);
      UrlPassCopies(s);
      assert [s[0]] + s[1..] == s;
    }
  }

  /** The URL pass returns its input unchanged exactly when no URL matches in it. */
  lemma UrlPassIdentityIff(s: string)
    ensures UrlPass(s) == s <==> NoUrlMatch(s)
  {
    UrlPassLength(s);
    if NoUrlMatch(s) {
      UrlPassNoMatch(s);
    }
  }

  /** The mention anchor is longer than the mention it replaces, so the
      mention pass never shrinks its input, and it keeps the length exactly
      when there is no mention. */
  lemma {:induction false} MentionPassLength(s: string)
    ensures |MentionPass(s)| >= |s|
    ensures |MentionPass(s)| == |s| <==> NoMention(s)
    decreases |s|
  {
    if |s| > 0 {
      if StartsWith(s, Mention) {
        MentionPassLength(s[|Mention|..]);
        assert s[0..] == s;
      } else {
        MentionPassLength(s[1..]);
        if NoMention(s) {
          assert NoMention(s[1..]) by {
            forall i | 0 <= i < |s[1..]| ensures !StartsWith(s[1..][i..], Mention) {
              assert s[1..][i..] == s[i + 1..];
            }
          }
        } else {
          var j :| 0 <= j < |s| && StartsWith(s[j..], Mention);
          assert j != 0 by { assert s[0..] == s; }
          assert s[1..][j - 1..] == s[j..];
        }
      }
    }
  }

  /** Text without any mention is copied verbatim by the mention pass. */
  lemma {:induction false} MentionPassNoMention(s: string)
    requires NoMention(s)
    ensures MentionPass(s) == s
    decreases |s|
  {
    if |s| > 0 {
      assert s[0..] == s;
      assert NoMention(s[1..]) by {
        forall i | 0 <= i < |s[1..]| ensures !StartsWith(s[1..][i..], Mention) {
          assert s[1..][i..] == s[i + 1..];
        }
      }
      MentionPassNoMention(s[1..]);
    }
  }

  /** The mention pass returns its input unchanged exactly when it holds no mention. */
  lemma MentionPassIdentityIff(s: string)
    ensures MentionPass(s) == s <==> NoMention(s)
  {
    MentionPassLength(s);
    if NoMention(s) {
      MentionPassNoMention(s);
    }
  }

  /** `ParseLink` returns its input unchanged exactly when the input holds
      neither a URL match nor a mention; in particular when it contains neither
      `http://`, `https://` nor `@MarianaRolfo`. */
  lemma ParseLinkIdentityIff(text: string)
    ensures ParseLink(text) == text <==> NoUrlMatch(text) && NoMention(text)
  {
    UrlPassLength(text);
    MentionPassLength(UrlPass(text));
    UrlPassIdentityIff(text);
    MentionPassIdentityIff(text);
  }

  // ---------------------------------------------------------------------------
  // Splitting at white space

  /** Appending text that starts with white space does not lengthen a run. */
  lemma {:induction false} NonSpaceRunAppend(x: string, b: string)
    requires |b| == 0 || IsSpace(b[0])
    ensures NonSpaceRun(x + b) == NonSpaceRun(x)
    decreases |x|
  {
    if |x| == 0 {
      assert x + b == b;
    } else {
      assert (x + b)[0] == x[0];
      if !IsSpace(x[0]) {
        assert (x + b)[1..] == x[1..] + b;
        NonSpaceRunAppend(x[1..], b);
      }
    }
  }

  /** No character of either scheme is white space. */
  lemma SchemesHaveNoSpace()
    ensures forall j :: 0 <= j < |HttpsScheme| ==> !IsSpace(HttpsScheme[j])
    ensures forall j :: 0 <= j < |HttpScheme| ==> !IsSpace(HttpScheme[j])
  {
  }

  /** A match never reaches past white space: text appended after white space
      does not change the match at the start. */
  lemma UrlMatchLenAppend(a: string, b: string)
    requires |b| == 0 || IsSpace(b[0])
    ensures UrlMatchLen(a + b) == UrlMatchLen(a)
  {
    var s := a + b;
    SchemesHaveNoSpace();
    assert StartsWith(s, HttpsScheme) <==> StartsWith(a, HttpsScheme) by {
      if |a| >= |HttpsScheme| {
        assert s[..|HttpsScheme|] == a[..|HttpsScheme|];
      } else if |b| > 0 {
        assert s[|a|] == b[0];
        assert !IsSpace(HttpsScheme[|a|]);
      }
    }
    assert StartsWith(s, HttpScheme) <==> StartsWith(a, HttpScheme) by {
      if |a| >= |HttpScheme| {
        assert s[..|HttpScheme|] == a[..|HttpScheme|];
      } else if |b| > 0 {
        assert s[|a|] == b[0];
        assert !IsSpace(HttpScheme[|a|]);
      }
    }
    var k := SchemeLen(a);
    if k > 0 && k < |a| {
      assert s[k..] == a[k..] + b;
      NonSpaceRunAppend(a[k..], b);
    }
  }

  /** Where a match starts, the pass emits its anchor and goes on after it. */
  lemma UrlPassWraps(s: string)
    requires UrlMatchLen(s) > 0
    ensures UrlPass(s) == Anchor(s[..UrlMatchLen(s)]) + UrlPass(s[UrlMatchLen(s)..])
  {
  }

  /** Text after white space is rewritten independently of the text before
      it: the URL pass distributes over such a split. */
  lemma {:induction false} UrlPassSplit(a: string, b: string)
    requires |b| == 0 || IsSpace(b[0])
    ensures UrlPass(a + b) == UrlPass(a) + UrlPass(b)
    decreases |a|
  {
    var s := a + b;
    if |a| == 0 {
      assert s == b;
      EmptyAppend(UrlPass(a), UrlPass(b));
    } else {
      UrlMatchLenAppend(a, b);
      var n := UrlMatchLen(a);
      if n > 0 {
        assert s[..n] == a[..n];
        assert s[n..] == a[n..] + b;
        UrlPassSplit(a[n..], b);
        UrlPassWraps(s);
        UrlPassWraps(a);
        AppendAssoc(Anchor(a[..n]), UrlPass(a[n..]), UrlPass(b));
      } else {
        assert s[0] == a[0];
        assert s[1..] == a[1..] + b;
        UrlPassSplit(a[1..], b);
        UrlPassCopies(s);
        UrlPassCopies(a);
        AppendAssoc([a[0]], UrlPass(a[1..]), UrlPass(b));
      }
    }
  }

  /** Where the text starts with the mention, the pass emits the anchor and
      goes on after the mention. */
  lemma MentionPassReplaces(s: string)
    requires StartsWith(s, Mention)
    ensures MentionPass(s) == MentionAnchor + MentionPass(s[|Mention|..])
  {
  }

  /** Where the text does not start with the mention, its first character is copied. */
  lemma MentionPassCopies(s: string)
    requires |s| > 0 && !StartsWith(s, Mention)
    ensures MentionPass(s) == [s[0]] + MentionPass(s[1..])
  {
  }

  /** The mention's first character `@` occurs nowhere else in it, so no
      mention can run across a split whose right part starts with a character
      other than the mention's later ones: the mention pass distributes. */
  lemma {:induction false} MentionPassSplit(a: string, b: string)
    requires |b| == 0 || b[0] !in Mention[1..]
    ensures MentionPass(a + b) == MentionPass(a) + MentionPass(b)
    decreases |a|
  {
    var s := a + b;
    if |a| == 0 {
      assert s == b;
      EmptyAppend(MentionPass(a), MentionPass(b));
    } else {
      assert StartsWith(s, Mention) <==> StartsWith(a, Mention) by {
        if |a| >= |Mention| {
          assert s[..|Mention|] == a[..|Mention|];
        } else if |b| > 0 {
          assert s[|a|] == b[0];
          assert Mention[|a|] == Mention[1..][|a| - 1];
        }
      }
      if StartsWith(a, Mention) {
        var m := |Mention|;
        assert s[m..] == a[m..] + b;
        MentionPassSplit(a[m..], b);
        MentionPassReplaces(s);
        MentionPassReplaces(a);
        AppendAssoc(MentionAnchor, MentionPass(a[m..]), MentionPass(b));
      } else {
        assert s[0] == a[0];
        assert s[1..] == a[1..] + b;
        MentionPassSplit(a[1..], b);
        MentionPassCopies(s);
        MentionPassCopies(a);
        AppendAssoc([a[0]], MentionPass(a[1..]), MentionPass(b));
      }
    }
  }

  /** No white-space character occurs in the mention. */
  lemma MentionHasNoSpace(c: char)
    requires IsSpace(c)
    ensures c !in Mention[1..]
  {
  }

  /** `ParseLink` rewrites the text on either side of a white-space boundary
      independently: no URL and no mention spans white space. */
  lemma ParseLinkSplit(a: string, b: string)
    requires |b| > 0 && IsSpace(b[0])
    ensures ParseLink(a + b) == ParseLink(a) + ParseLink(b)
  {
    UrlPassSplit(a, b);
    UrlMatchLenAppend([], b);
    assert [] + b == b;
    UrlPassCopies(b);
    MentionHasNoSpace(b[0]);
    MentionPassSplit(UrlPass(a), UrlPass(b));
  }

  // ---------------------------------------------------------------------------
  // Mentions

  /** Every `@MarianaRolfo` is replaced, whatever surrounds it (there is no
      word boundary: `@MarianaRolfoXYZ` becomes the anchor followed by `XYZ`). */
  lemma MentionPassEachMention(a: string, b: string)
    ensures MentionPass(a + Mention + b) == MentionPass(a) + MentionAnchor + MentionPass(b)
  {
    var rest := Mention + b;
    assert a + Mention + b == a + rest;
    assert rest[0] == '@';
    MentionPassSplit(a, rest);
    assert StartsWith(rest, Mention) by { assert rest[..|Mention|] == Mention; }
    assert rest[|Mention|..] == b;
    MentionPassReplaces(rest);
    AppendAssoc(MentionPass(a), MentionAnchor, MentionPass(b));
  }

  /** A text that is one URL match is wrapped once, and a mention inside the
      URL is then replaced both in the `href` and in the anchor text. */
  lemma ParseLinkOfUrl(u: string)
    requires 0 < |u| == UrlMatchLen(u)
    ensures ParseLink(u) ==
      "<a href=\"" + MentionPass(u) + "\">" + MentionPass(u) + "</a>"
  {
    UrlPassWholeMatch(u);
    MatchStartsWithH(u);
    MentionPassAnchor(u);
  }

  /** A text that is one URL match becomes that URL's anchor. */
  lemma UrlPassWholeMatch(u: string)
    requires 0 < |u| == UrlMatchLen(u)
    ensures UrlPass(u) == Anchor(u)
  {
    UrlPassWraps(u);
    assert u[..|u|] == u;
    assert |u[|u|..]| == 0;
  }

  /** Every match starts with `h`. */
  lemma MatchStartsWithH(s: string)
    requires UrlMatchLen(s) > 0
    ensures s[0] == 'h'
  {
    assert s[..SchemeLen(s)][0] == 'h';
  }

  /** Text too short to hold the mention, followed by a character that
      cannot continue one, passes through the mention pass unchanged. */
  lemma MentionPassShortPrefix(x: string, t: string)
    requires |x| < |Mention|
    requires |t| == 0 || t[0] !in Mention[1..]
    ensures MentionPass(x + t) == x + MentionPass(t)
  {
    MentionPassSplit(x, t);
    MentionPassShort(x);
  }

  /** The mention pass over short markup wrapped around two copies of a text
      replaces only the text's own mentions. */
  lemma MentionPassWrapped(open: string, u: string, mid: string, close: string)
    requires |open| < |Mention| && |mid| < |Mention| && |close| < |Mention|
    requires |u| > 0 && u[0] !in Mention[1..]
    requires |mid| > 0 && mid[0] !in Mention[1..]
    requires |close| > 0 && close[0] !in Mention[1..]
    ensures MentionPass(open + u + mid + u + close) ==
      open + MentionPass(u) + mid + MentionPass(u) + close
  {
    var m := MentionPass(u);
    var t3 := u + close;
    var t2 := mid + t3;
    var t1 := u + t2;
    MentionPassSplit(u, close);
    MentionPassShort(close);
    MentionPassShortPrefix(mid, t3);
    MentionPassSplit(u, t2);
    MentionPassShortPrefix(open, t1);
    Assoc5(open, u, mid, u, close);
    Assoc5(open, m, mid, m, close);
  }

  /** The mention pass over a URL's anchor: the markup around the URL holds
      no mention and cannot form one with the URL, so only the URL's own
      mentions are replaced, in both places. */
  lemma MentionPassAnchor(u: string)
    requires |u| > 0 && u[0] == 'h'
    ensures MentionPass(Anchor(u)) ==
      "<a href=\"" + MentionPass(u) + "\">" + MentionPass(u) + "</a>"
  {
    var open, mid, close := "<a href=\"", "\">", "</a>";
    MarkupCannotContinueMention(u[0]);
    MarkupCannotContinueMention(mid[0]);
    MarkupCannotContinueMention(close[0]);
    MentionPassWrapped(open, u, mid, close);
  }

  /** The characters that start the anchor's markup pieces and a URL do not
      occur after the `@` of the mention. */
  lemma MarkupCannotContinueMention(c: char)
    requires c == 'h' || c == '<' || c == '"'
    ensures c !in Mention[1..]
  {
    forall i | 1 <= i < |Mention| ensures Mention[i] != c {}
  }

  /** A string shorter than the mention cannot contain it. */
  lemma MentionPassShort(s: string)
    requires |s| < |Mention|
    ensures MentionPass(s) == s
  {
    MentionPassNoMention(s);
  }

  /** Both schemes start with `h`. */
  lemma NoMatchWithoutH(s: string)
    requires |s| > 0 && s[0] != 'h'
    ensures UrlMatchLen(s) == 0
  {
    assert !StartsWith(s, HttpsScheme) by {
      if |s| >= 8 { assert s[..8][0] == s[0]; }
    }
    assert !StartsWith(s, HttpScheme) by {
      if |s| >= 7 { assert s[..7][0] == s[0]; }
    }
  }

  /** The mention holds no URL: it has no `h`. */
  lemma MentionHasNoUrl()
    ensures NoUrlMatch(Mention)
  {
    forall i | 0 <= i < |Mention| ensures UrlMatchLen(Mention[i..]) == 0 {
      NoMatchWithoutH(Mention[i..]);
    }
  }

  /** The mention pass turns the bare mention into the anchor. */
  lemma MentionPassOfMention()
    ensures MentionPass(Mention) == MentionAnchor
  {
    assert StartsWith(Mention, Mention);
    MentionPassReplaces(Mention);
    assert |Mention[|Mention|..]| == 0;
  }

  /** The mention alone becomes exactly the fixed anchor: the URL pass, which
      runs first, finds nothing in it, and the anchor's own `@MarianaRolfo`
      and `https://` link are not rewritten again. */
  lemma ParseLinkOfMention()
    ensures ParseLink(Mention) == MentionAnchor
  {
    MentionHasNoUrl();
    UrlPassNoMatch(Mention);
    MentionPassOfMention();
  }

  /** The URL pass changes every text in which a match starts somewhere. */
  lemma UrlPassChanges(s: string, i: int)
    requires 0 <= i < |s| && UrlMatchLen(s[i..]) > 0
    ensures UrlPass(s) != s
  {
    UrlPassIdentityIff(s);
  }

  /** An `https://` URL of at least one more character, with anything in
      front of it and anything after it, starts a match. */
  lemma EmbeddedHttpsMatches(p: string, u: string, q: string)
    requires StartsWith(u, HttpsScheme) && |u| > 8 && !IsSpace(u[8])
    ensures UrlMatchLen((p + u + q)[|p|..]) > 0
  {
    var t := (p + u + q)[|p|..];
    assert t == u + q;
    assert t[..8] == u[..8];
    assert t[8] == u[8];
  }

  /** The anchor's `href` is itself a URL the URL pass would match. */
  lemma MentionHrefIsUrl()
    ensures StartsWith(MentionHref, HttpsScheme) && |MentionHref| > 8 && !IsSpace(MentionHref[8])
  {
  }

  /** The order of the passes matters: replacing the mention first and then
      running the URL pass would wrap the anchor's own `href` a second time. */
  lemma PassOrder()
    ensures UrlPass(MentionPass(Mention)) != ParseLink(Mention)
  {
    ParseLinkOfMention();
    MentionPassOfMention();
    MentionHrefIsUrl();
    EmbeddedHttpsMatches(MentionAnchorOpen, MentionHref, MentionAnchorClose);
    UrlPassChanges(MentionAnchor, |MentionAnchorOpen|);
  }

  // ---------------------------------------------------------------------------
  // The URL pass as a leftmost-longest segmentation

  /** A piece of the URL pass's input: plain text, or one URL. */
  datatype Segment = Plain(text: string) | Link(url: string)
  {
    /** The input characters the piece covers. */
    function Covered(): string
    {
      match this
      case Plain(t) => t
      case Link(u) => u
    }

    /** What the piece becomes: plain text as it is, a URL as its anchor. */
    function Html(): string
    {
      match this
      case Plain(t) => t
      case Link(u) => Anchor(u)
    }
  }

  /** The input the segments cover. */
  function Source(segs: seq<Segment>): string
    decreases |segs|
  {
    if |segs| == 0 then [] else segs[0].Covered() + Source(segs[1..])
  }

  /** The segments' HTML, in order. */
  function Rendered(segs: seq<Segment>): string
    decreases |segs|
  {
    if |segs| == 0 then [] else segs[0].Html() + Rendered(segs[1..])
  }

  /** `u` is a whole URL token: a scheme, at least one more character, and no
      white space anywhere. */
  ghost predicate IsUrlToken(u: string)
  {
    && ((StartsWith(u, HttpsScheme) && |u| > 8) || (StartsWith(u, HttpScheme) && |u| > 7))
    && forall i :: 0 <= i < |u| ==> !IsSpace(u[i])
  }

  /** Segment `x` is in place in front of the text `rest`: a URL is a whole
      token followed by white space or the end, and no match starts in plain
      text (the matcher reading on into what follows it). */
  ghost predicate InPlace(x: Segment, rest: string)
  {
    match x
    case Plain(t) => forall i :: 0 <= i < |t| ==> UrlMatchLen((t + rest)[i..]) == 0
    case Link(u) => IsUrlToken(u) && (|rest| == 0 || IsSpace(rest[0]))
  }

  /** The segmentation a global left-to-right search with a greedy pattern
      produces: every segment is in place in front of the rest of the text. */
  ghost predicate LeftmostLongest(segs: seq<Segment>)
    decreases |segs|
  {
    |segs| == 0 || (InPlace(segs[0], Source(segs[1..])) && LeftmostLongest(segs[1..]))
  }

  lemma Cons(x: Segment, tail: seq<Segment>)
    ensures Source([x] + tail) == x.Covered() + Source(tail)
    ensures Rendered([x] + tail) == x.Html() + Rendered(tail)
    ensures LeftmostLongest([x] + tail) <==> InPlace(x, Source(tail)) && LeftmostLongest(tail)
  {
    assert ([x] + tail)[1..] == tail;
  }

  /** A whole URL token followed by white space or the end is one match. */
  lemma UrlTokenMatches(u: string, rest: string)
    requires IsUrlToken(u)
    requires |rest| == 0 || IsSpace(rest[0])
    ensures UrlMatchLen(u + rest) == |u|
  {
    UrlMatchLenAppend(u, rest);
    var k := SchemeLen(u);
    NonSpaceRunMaximal(u[k..]);
  }

  /** The URL pass turns a segment that is in place into its HTML. */
  lemma UrlPassSegment(x: Segment, rest: string)
    requires InPlace(x, rest)
    ensures UrlPass(x.Covered() + rest) == x.Html() + UrlPass(rest)
  {
    match x
    case Plain(t) =>
      UrlPassPlainPrefix(t, rest);
    case Link(u) =>
      var s := u + rest;
      UrlTokenMatches(u, rest);
      UrlPassWraps(s);
      assert s[..|u|] == u;
      assert s[|u|..] == rest;
  }

  /** Every leftmost-longest segmentation of a text renders to what the URL
      pass produces from it. */
  lemma {:induction false} UrlPassRendersSegments(segs: seq<Segment>)
    requires LeftmostLongest(segs)
    ensures UrlPass(Source(segs)) == Rendered(segs)
    decreases |segs|
  {
    if |segs| > 0 {
      var x, tail := segs[0], segs[1..];
      UrlPassRendersSegments(tail);
      UrlPassSegment(x, Source(tail));
    }
  }

  /** The segmentation the search finds: a link for each match, one plain
      character wherever no match starts. */
  function Segments(s: string): seq<Segment>
    decreases |s|
  {
    if |s| == 0 then []
    else
      var n := UrlMatchLen(s);
      if n > 0 then [Link(s[..n])] + Segments(s[n..])
      else [Plain([s[0]])] + Segments(s[1..])
  }

  /** Where a match starts, the search takes it as one link, in place. */
  lemma LinkFirst(s: string)
    requires UrlMatchLen(s) > 0
    ensures Segments(s) == [Link(s[..UrlMatchLen(s)])] + Segments(s[UrlMatchLen(s)..])
    ensures InPlace(Link(s[..UrlMatchLen(s)]), s[UrlMatchLen(s)..])
  {
    var n := UrlMatchLen(s);
    UrlMatchExtent(s);
    assert |s[n..]| == 0 || s[n..][0] == s[n];
  }

  /** Where no match starts, the search takes one plain character. */
  lemma PlainFirst(s: string)
    requires |s| > 0 && UrlMatchLen(s) == 0
    ensures Segments(s) == [Plain([s[0]])] + Segments(s[1..])
  {
  }

  /** ... and that character is in place. */
  lemma PlainFirstInPlace(s: string)
    requires |s| > 0 && UrlMatchLen(s) == 0
    ensures InPlace(Plain([s[0]]), s[1..])
  {
    var t := [s[0]];
    forall i | 0 <= i < |t|
      ensures UrlMatchLen((t + s[1..])[i..]) == 0
    {
      assert (t + s[1..])[i..] == s;
    }
  }

  /** One step of the search keeps the segmentation exact and in place. */
  lemma SegmentsStep(s: string, x: Segment, n: nat)
    requires 0 < n <= |s| && x.Covered() == s[..n]
    requires Segments(s) == [x] + Segments(s[n..]) && InPlace(x, s[n..])
    requires Source(Segments(s[n..])) == s[n..] && LeftmostLongest(Segments(s[n..]))
    ensures Source(Segments(s)) == s && LeftmostLongest(Segments(s))
  {
    Cons(x, Segments(s[n..]));
    assert s == s[..n] + s[n..];
  }

  /** The search's segmentation covers the text exactly and is leftmost-longest. */
  lemma {:induction false} SegmentsAreLeftmostLongest(s: string)
    ensures Source(Segments(s)) == s
    ensures LeftmostLongest(Segments(s))
    decreases |s|
  {
    if |s| > 0 {
      var n := UrlMatchLen(s);
      if n > 0 {
        LinkFirst(s);
        SegmentsAreLeftmostLongest(s[n..]);
        SegmentsStep(s, Link(s[..n]), n);
      } else {
        PlainFirst(s);
        PlainFirstInPlace(s);
        SegmentsAreLeftmostLongest(s[1..]);
        SegmentsStep(s, Plain([s[0]]), 1);
      }
    }
  }

  /** The URL pass is exactly "render the leftmost-longest segmentation": it
      wraps each match once, copies everything else, and any segmentation of
      that kind gives the same output. */
  lemma UrlPassIsLeftmostLongest(s: string, segs: seq<Segment>)
    requires Source(segs) == s && LeftmostLongest(segs)
    ensures UrlPass(s) == Rendered(segs) == Rendered(Segments(s))
  {
    UrlPassRendersSegments(segs);
    SegmentsAreLeftmostLongest(s);
    UrlPassRendersSegments(Segments(s));
  }

  // ---------------------------------------------------------------------------
  // Generic sequence facts used above

  lemma EmptyAppend(x: string, y: string)
    requires |x| == 0
    ensures x + y == y
  {
  }

  lemma AppendAssoc(x: string, y: string, z: string)
    ensures (x + y) + z == x + (y + z)
  {
  }

  lemma Assoc5(a: string, b: string, c: string, d: string, e: string)
    ensures a + b + c + d + e == a + (b + (c + (d + e)))
  {
  }

  lemma ConsAppend(p: string, r: string)
    requires |p| > 0
    ensures [p[0]] + (p[1..] + r) == p + r
  {
  }
}
