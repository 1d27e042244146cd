/** The HTML helpers of the contact endpoint (app/api/contact/route.ts):
    `escapeHtml`, which makes submitter text safe to interpolate into the
    e-mail's HTML part, and `toHtmlParagraph`, which additionally turns line
    feeds into `<br />`. */
module ContactHtml {

  import opened Text

  /** What escaping does to one character. */
  function EscapeChar(c: char): string {
    if c == '&' then "&amp;"
    else if c == '<' then "&lt;"
    else if c == '>' then "&gt;"
    else if c == '"' then "&quot;"
    else if c == '\'' then "&#39;"
    else [c]
  }

  /** Reference definition: every character escaped on its own, in one pass. */
  function EscapeEach(s: string): string {
    if s == [] then [] else EscapeChar(s[0]) + EscapeEach(s[1..])
  }

  /** The four passes that follow the ampersand pass. */
  function LaterPasses(s: string): string {
    var lt := ReplaceAll(s, "<", "&lt;");
    var gt := ReplaceAll(lt, ">", "&gt;");
    var quot := ReplaceAll(gt, "\"", "&quot;");
    ReplaceAll(quot, "'", "&#39;")
  }

  /** `escapeHtml`: five `replaceAll` passes, the ampersand pass first.
      The result escapes each character once, is inert as HTML, and decodes
      back to the submitter's text. */
  function EscapeHtml(s: string): (r: string)
    ensures r == EscapeEach(s)
    ensures Inert(r)
    ensures Unescape(r) == s
  {
    EscapeHtmlIsSinglePass(s);
    EscapeEachInert(s);
    UnescapeEscapeEach(s);
    LaterPasses(ReplaceAll(s, "&", "&amp;"))
  }

  /** The passes act on each character separately. */
  lemma EscapeHtmlConcat(a: string, b: string)
    ensures LaterPasses(ReplaceAll(a + b, "&", "&amp;")) ==
            LaterPasses(ReplaceAll(a, "&", "&amp;")) + LaterPasses(ReplaceAll(b, "&", "&amp;"))
  {
    ReplaceCharConcat(a, b, '&', "&amp;");
    LaterPassesConcat(ReplaceAll(a, "&", "&amp;"), ReplaceAll(b, "&", "&amp;"));
  }

  lemma LaterPassesConcat(a: string, b: string)
    ensures LaterPasses(a + b) == LaterPasses(a) + LaterPasses(b)
  {
    ReplaceCharConcat(a, b, '<', "&lt;");
    var a1, b1 := ReplaceAll(a, "<", "&lt;"), ReplaceAll(b, "<", "&lt;");
    ReplaceCharConcat(a1, b1, '>', "&gt;");
    var a2, b2 := ReplaceAll(a1, ">", "&gt;"), ReplaceAll(b1, ">", "&gt;");
    ReplaceCharConcat(a2, b2, '"', "&quot;");
    var a3, b3 := ReplaceAll(a2, "\"", "&quot;"), ReplaceAll(b2, "\"", "&quot;");
    ReplaceCharConcat(a3, b3, '\'', "&#39;");
  }

  /** Text without the characters the later passes replace goes through them
      unchanged. */
  lemma LaterPassesKeep(s: string)
    requires '<' !in s && '>' !in s && '"' !in s && '\'' !in s
    ensures LaterPasses(s) == s
  {
  }

  /** On a single character the passes produce that character's entity: an
      entity written by an earlier pass holds none of the characters that the
      later passes replace. */
  lemma EscapeHtmlChar(c: char)
    ensures LaterPasses(ReplaceAll([c], "&", "&amp;")) == EscapeChar(c)
  {
    ReplaceCharSingle(c, '&', "&amp;");
    if c == '&' {
      LaterPassesKeep("&amp;");
    } else {
      assert ReplaceAll([c], "&", "&amp;") == [c];
      LaterPassesChar(c);
    }
  }

  lemma LaterPassesChar(c: char)
    requires c != '&'
    ensures LaterPasses([c]) == EscapeChar(c)
  {
    ReplaceCharSingle(c, '<', "&lt;");
    var s1 := ReplaceAll([c], "<", "&lt;");
    if c == '<' {
      assert s1 == "&lt;";
      LaterPassesTail("&lt;");
    } else {
      assert s1 == [c];
      ReplaceCharSingle(c, '>', "&gt;");
      var s2 := ReplaceAll(s1, ">", "&gt;");
      if c == '>' {
        assert s2 == "&gt;";
        assert ReplaceAll(s2, "\"", "&quot;") == s2;
        assert ReplaceAll(s2, "'", "&#39;") == s2;
      } else {
        assert s2 == [c];
        ReplaceCharSingle(c, '"', "&quot;");
        ReplaceCharSingle(c, '\'', "&#39;");
        var s3 := ReplaceAll(s2, "\"", "&quot;");
        if c == '"' {
          assert s3 == "&quot;";
          assert ReplaceAll(s3, "'", "&#39;") == s3;
        } else {
          assert s3 == [c];
        }
      }
    }
  }

  /** Text without `>`, `"` or `'` goes through the last three passes
      unchanged. */
  lemma LaterPassesTail(s: string)
    requires '>' !in s && '"' !in s && '\'' !in s
    ensures ReplaceAll(ReplaceAll(ReplaceAll(s, ">", "&gt;"), "\"", "&quot;"), "'", "&#39;") == s
  {
  }

  /** Because `&` is replaced first, no entity is escaped twice: the chain of
      passes equals escaping each character once. */
  lemma {:induction false} EscapeHtmlIsSinglePass(s: string)
    ensures LaterPasses(ReplaceAll(s, "&", "&amp;")) == EscapeEach(s)
  {
    if s != [] {
      assert s == [s[0]] + s[1..];
      EscapeHtmlConcat([s[0]], s[1..]);
      EscapeHtmlChar(s[0]);
      EscapeHtmlIsSinglePass(s[1..]);
    }
  }

  /** One of the five entities starts at index `k` of `s`. */
  predicate EntityAt(s: string, k: nat) {
    OccursAt(s, "&amp;", k) || OccursAt(s, "&lt;", k) || OccursAt(s, "&gt;", k) ||
    OccursAt(s, "&quot;", k) || OccursAt(s, "&#39;", k)
  }

  /** `s` is safe HTML text: no raw `<`, `>`, `"` or `'`, and every `&`
      starts one of the five entities. */
  predicate Inert(s: string) {
    forall k | 0 <= k < |s| ::
      && s[k] != '<' && s[k] != '>' && s[k] != '"' && s[k] != '\''
      && (s[k] == '&' ==> EntityAt(s, k))
  }

  lemma EntityAtConcat(a: string, b: string, k: nat)
    ensures EntityAt(a, k) ==> EntityAt(a + b, k)
    ensures EntityAt(b, k) ==> EntityAt(a + b, |a| + k)
  {
    OccursAtConcat(a, b, "&amp;", k);
    OccursAtConcat(a, b, "&lt;", k);
    OccursAtConcat(a, b, "&gt;", k);
    OccursAtConcat(a, b, "&quot;", k);
    OccursAtConcat(a, b, "&#39;", k);
  }

  lemma InertConcat(a: string, b: string)
    requires Inert(a) && Inert(b)
    ensures Inert(a + b)
  {
    var r := a + b;
    forall k | 0 <= k < |r| && r[k] == '&' ensures EntityAt(r, k) {
      if k < |a| {
        assert a[k] == '&';
        EntityAtConcat(a, b, k);
      } else {
        assert b[k - |a|] == '&';
        EntityAtConcat(a, b, k - |a|);
      }
    }
  }

  lemma {:induction false} EscapeEachInert(s: string)
    ensures Inert(EscapeEach(s))
  {
    if s != [] {
      EscapeEachInert(s[1..]);
      var e := EscapeChar(s[0]);
      assert Inert(e) by {
        if s[0] in "&<>\"'" {
          assert EntityAt(e, 0);
        }
      }
      InertConcat(e, EscapeEach(s[1..]));
    }
  }

  /** Reference decoder for the five entities, in a single left-to-right
      pass. */
  function Unescape(s: string): string
    decreases |s|
  {
    if s == [] then []
    else if s[0] != '&' then [s[0]] + Unescape(s[1..])
    else if OccursAt(s, "&amp;", 0) then "&" + Unescape(s[5..])
    else if OccursAt(s, "&lt;", 0) then "<" + Unescape(s[4..])
    else if OccursAt(s, "&gt;", 0) then ">" + Unescape(s[4..])
    else if OccursAt(s, "&quot;", 0) then "\"" + Unescape(s[6..])
    else if OccursAt(s, "&#39;", 0) then "'" + Unescape(s[5..])
    else [s[0]] + Unescape(s[1..])
  }

  lemma UnescapeStep(c: char, rest: string)
    ensures Unescape(EscapeChar(c) + rest) == [c] + Unescape(rest)
  {
    if c == '&' || c == '<' || c == '>' {
      UnescapeStepShort(c, rest);
    } else if c == '"' {
      UnescapeStepQuote(rest);
    } else if c == '\'' {
      UnescapeStepApostrophe(rest);
    } else {
      var e := EscapeChar(c) + rest;
      assert e[0] == c && e[1..] == rest;
    }
  }

  lemma UnescapeStepShort(c: char, rest: string)
    requires c == '&' || c == '<' || c == '>'
    ensures Unescape(EscapeChar(c) + rest) == [c] + Unescape(rest)
  {
    var e := EscapeChar(c) + rest;
    var n := |EscapeChar(c)|;
    assert e[n..] == rest;
    assert e[..n] == EscapeChar(c);
    if c == '&' {
      assert OccursAt(e, "&amp;", 0);
    } else if c == '<' {
      assert OccursAt(e, "&lt;", 0) && e[1] != 'a';
    } else {
      assert OccursAt(e, "&gt;", 0) && e[1] != 'a' && e[1] != 'l';
    }
  }

  lemma UnescapeStepQuote(rest: string)
    ensures Unescape(EscapeChar('"') + rest) == "\"" + Unescape(rest)
  {
    var e := "&quot;" + rest;
    assert e[6..] == rest;
    assert e[..6] == "&quot;";
    assert OccursAt(e, "&quot;", 0) && e[1] == 'q';
  }

  lemma UnescapeStepApostrophe(rest: string)
    ensures Unescape(EscapeChar('\'') + rest) == "'" + Unescape(rest)
  {
    var e := "&#39;" + rest;
    assert e[5..] == rest;
    assert e[..5] == "&#39;";
    assert OccursAt(e, "&#39;", 0) && e[1] == '#';
  }

  lemma {:induction false} UnescapeEscapeEach(s: string)
    ensures Unescape(EscapeEach(s)) == s
  {
    if s != [] {
      UnescapeStep(s[0], EscapeEach(s[1..]));
      UnescapeEscapeEach(s[1..]);
      assert s == [s[0]] + s[1..];
    }
  }

  /** What `toHtmlParagraph` does to one character. */
  function ParagraphChar(c: char): string {
    if c == '\n' then "<br />" else EscapeChar(c)
  }

  /** Reference definition of `toHtmlParagraph`, one character at a time. */
  function ParagraphEach(s: string): string {
    if s == [] then [] else ParagraphChar(s[0]) + ParagraphEach(s[1..])
  }

  /** `toHtmlParagraph`: escape, then replace every line feed by `<br />`.
      Every character but the line feed is escaped once, each line feed
      becomes `<br />`, and that tag is the only markup the result holds,
      whatever the submitter typed. */
  function ToHtmlParagraph(s: string): (r: string)
    ensures r == ParagraphEach(s)
    ensures OnlyLineBreakTags(r)
  {
    BreaksOfEscapeEach(s);
    ParagraphEachOnlyBreaks(s);
    ReplaceAll(EscapeHtml(s), "\n", "<br />")
  }

  /** Escaping a character other than a line feed produces none. */
  lemma EscapeCharKeepsLineFeedOut(c: char)
    requires c != '\n'
    ensures ReplaceAll(EscapeChar(c), "\n", "<br />") == EscapeChar(c) == ParagraphChar(c)
  {
    var e := EscapeChar(c);
    if c in "&<>\"'" {
      assert e[0] == '&' && forall k | 1 <= k < |e| :: e[k] != '\n';
    } else {
      assert e == [c];
    }
    assert '\n' !in e;
  }

  lemma {:induction false} BreaksOfEscapeEach(s: string)
    ensures ReplaceAll(EscapeEach(s), "\n", "<br />") == ParagraphEach(s)
  {
    if s != [] {
      var c, t := s[0], s[1..];
      assert EscapeEach(s) == EscapeChar(c) + EscapeEach(t);
      assert ParagraphEach(s) == ParagraphChar(c) + ParagraphEach(t);
      ReplaceCharConcat(EscapeChar(c), EscapeEach(t), '\n', "<br />");
      BreaksOfEscapeEach(t);
      if c == '\n' {
        assert EscapeChar(c) == [c];
        ReplaceCharSingle(c, '\n', "<br />");
      } else {
        EscapeCharKeepsLineFeedOut(c);
      }
    }
  }

  /** `s` holds no markup but `<br />` tags: each `<` opens one, each `>`
      closes one, there are no quotes, and every `&` starts an entity. */
  predicate OnlyLineBreakTags(s: string) {
    forall k | 0 <= k < |s| :: BreakSafeAt(s, k)
  }

  /** The character at `k` is plain text, part of an entity, or part of a
      `<br />` tag. */
  predicate BreakSafeAt(s: string, k: nat)
    requires k < |s|
  {
    && (s[k] == '<' ==> OccursAt(s, "<br />", k))
    && (s[k] == '>' ==> k >= 5 && OccursAt(s, "<br />", k - 5))
    && s[k] != '"' && s[k] != '\''
    && (s[k] == '&' ==> EntityAt(s, k))
  }

  lemma OnlyLineBreakTagsConcat(a: string, b: string)
    requires OnlyLineBreakTags(a) && OnlyLineBreakTags(b)
    ensures OnlyLineBreakTags(a + b)
  {
    var r := a + b;
    forall k | 0 <= k < |r| ensures BreakSafeAt(r, k) {
      if k < |a| {
        assert r[k] == a[k] && BreakSafeAt(a, k);
        OccursAtConcat(a, b, "<br />", k);
        EntityAtConcat(a, b, k);
        if a[k] == '>' {
          assert k >= 5 && OccursAt(a, "<br />", k - 5);
          OccursAtConcat(a, b, "<br />", k - 5);
        }
      } else {
        var j := k - |a|;
        assert r[k] == b[j] && BreakSafeAt(b, j);
        OccursAtConcat(a, b, "<br />", j);
        EntityAtConcat(a, b, j);
        if b[j] == '>' {
          assert j >= 5 && OccursAt(b, "<br />", j - 5);
          OccursAtConcat(a, b, "<br />", j - 5);
        }
      }
    }
  }

  lemma {:induction false} ParagraphEachOnlyBreaks(s: string)
    ensures OnlyLineBreakTags(ParagraphEach(s))
  {
    if s != [] {
      ParagraphEachOnlyBreaks(s[1..]);
      var p := ParagraphChar(s[0]);
      assert OnlyLineBreakTags(p) by {
        if s[0] == '\n' {
          assert OccursAt(p, "<br />", 0);
        } else if s[0] in "&<>\"'" {
          assert EntityAt(p, 0);
        }
      }
      OnlyLineBreakTagsConcat(p, ParagraphEach(s[1..]));
    }
  }

}
