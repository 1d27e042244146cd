/** How the feed-title decoder of app/lib/youtube.ts acts on text produced
    by the contact endpoint's escaper in app/api/contact/route.ts: on text
    without `&`, decoding undoes escaping up to trimming. Each decoding pass
    replaces one entity by its character; the proof follows the text as its
    characters are turned back one kind at a time. */
module EscapeDecode {

  import opened Text
  import opened ContactHtml
  import opened YouTube

  /** The five characters the escaper rewrites. */
  const Specials: set<char> := {'&', '<', '>', '"', '\''}

  /** An entity: `&`, then characters other than `&` and `;`, then `;`. */
  predicate IsEntity(e: string) {
    && |e| >= 2 && e[0] == '&' && e[|e| - 1] == ';'
    && forall k | 0 < k < |e| - 1 :: e[k] != '&' && e[k] != ';'
  }

  /** Each special character escapes to an entity, and different special
      characters to different entities; any other character is kept. */
  lemma EscapeCharShape(c: char, d: char)
    ensures c in Specials ==> IsEntity(EscapeChar(c))
    ensures c !in Specials ==> EscapeChar(c) == [c]
    ensures c in Specials && d in Specials ==> (EscapeChar(c) == EscapeChar(d) <==> c == d)
  {
  }

  /** An entity at the front of a text matches another entity only when
      the two are the same: both end at their first `;`. */
  lemma EntityMatchIsWhole(e: string, rest: string, p: string)
    requires IsEntity(e) && IsEntity(p)
    requires |e + rest| >= |p| && (e + rest)[..|p|] == p
    ensures e == p
  {
    var t := e + rest;
    assert t[|e| - 1] == ';';
    assert forall k | 0 < k < |p| - 1 :: t[k] == p[k];
    assert !(|e| - 1 < |p| - 1);
    assert t[|p| - 1] == p[|p| - 1] == ';';
    assert !(|p| - 1 < |e| - 1);
    assert e == t[..|e|];
  }

  /** Another entity at the front of a text is no match for the pattern. */
  lemma NoMatchAtOtherEntity(e: string, rest: string, p: string)
    requires IsEntity(e) && IsEntity(p) && e != p
    ensures !(|e + rest| >= |p| && (e + rest)[..|p|] == p)
  {
    if |e + rest| >= |p| && (e + rest)[..|p|] == p {
      EntityMatchIsWhole(e, rest, p);
    }
  }

  /** An entity has no `&` after its first character. */
  lemma EntityTail(e: string)
    requires IsEntity(e)
    ensures '&' !in e[1..]
  {
    assert forall k | 0 <= k < |e[1..]| :: e[1..][k] == e[k + 1];
  }

  /** An entity other than the pattern is copied unchanged. */
  lemma ReplaceOtherEntity(e: string, rest: string, p: string, rep: string)
    requires IsEntity(e) && IsEntity(p) && e != p
    ensures ReplaceAll(e + rest, p, rep) == e + ReplaceAll(rest, p, rep)
  {
    calc {
      ReplaceAll(e + rest, p, rep);
    == { NoMatchAtOtherEntity(e, rest, p); ReplaceNoMatchAtFront(e + rest, p, rep); }
      [e[0]] + ReplaceAll((e + rest)[1..], p, rep);
    == { assert (e + rest)[1..] == e[1..] + rest; }
      [e[0]] + ReplaceAll(e[1..] + rest, p, rep);
    == { EntityTail(e); ReplaceSkip(e[1..], rest, p, rep); }
      [e[0]] + (e[1..] + ReplaceAll(rest, p, rep));
    == { assert e == [e[0]] + e[1..]; }
      e + ReplaceAll(rest, p, rep);
    }
  }

  /** One replacement pass over a text that starts with an entity: the
      entity is replaced when it is the pattern, and kept otherwise. */
  lemma ReplaceEntityBlock(e: string, rest: string, p: string, rep: string)
    requires IsEntity(e) && IsEntity(p)
    ensures ReplaceAll(e + rest, p, rep) == (if e == p then rep else e) + ReplaceAll(rest, p, rep)
  {
    if e == p {
      var t := e + rest;
      assert t[..|p|] == p && t[|p|..] == rest;
    } else {
      ReplaceOtherEntity(e, rest, p, rep);
    }
  }

  /** The text with the characters in `done` written as themselves and every
      other character escaped. */
  function PartlyEscaped(s: string, done: set<char>): string {
    if s == [] then []
    else (if s[0] in done then [s[0]] else EscapeChar(s[0])) + PartlyEscaped(s[1..], done)
  }

  lemma {:induction false} EscapeEachIsPartlyEscaped(s: string)
    ensures EscapeEach(s) == PartlyEscaped(s, {})
  {
    if s != [] {
      EscapeEachIsPartlyEscaped(s[1..]);
    }
  }

  lemma {:induction false} FullyDecodedIsText(s: string)
    ensures PartlyEscaped(s, Specials) == s
  {
    if s != [] {
      EscapeCharShape(s[0], s[0]);
      FullyDecodedIsText(s[1..]);
      assert s == [s[0]] + s[1..];
    }
  }

  /** A decoding pass for the special character `c` (pattern `pat`, its
      escape, and replacement `rep`, the character itself) turns exactly the
      entities of `c` back into `c`: afterwards `c` counts as decoded too. */
  lemma {:induction false} DecodePass(s: string, done: set<char>, c: char, after: set<char>,
                                      pat: string, rep: string)
    requires '&' !in s && c in Specials
    requires after == done + {c} && pat == EscapeChar(c) && rep == [c]
    ensures ReplaceAll(PartlyEscaped(s, done), pat, rep) == PartlyEscaped(s, after)
  {
    EscapeCharShape(c, c);
    if s != [] {
      var x, rest := s[0], PartlyEscaped(s[1..], done);
      DecodePass(s[1..], done, c, after, pat, rep);
      EscapeCharShape(x, c);
      if x in done || x !in Specials {
        assert EscapeChar(x) == [x] || x in done;
        ReplaceSkip([x], rest, pat, rep);
      } else {
        ReplaceEntityBlock(EscapeChar(x), rest, pat, rep);
      }
    }
  }

  /** The five decoding passes, in the decoder's order, turn the escaped
      text back into the text. */
  lemma DecodePasses(s: string)
    requires '&' !in s
    ensures
      var a := ReplaceAll(PartlyEscaped(s, {}), "&amp;", "&");
      var q := ReplaceAll(a, "&quot;", "\"");
      var p := ReplaceAll(q, "&#39;", "'");
      var l := ReplaceAll(p, "&lt;", "<");
      ReplaceAll(l, "&gt;", ">") == s
  {
    var d1, d2, d3, d4 := {'&'}, {'&', '"'}, {'&', '"', '\''}, {'&', '"', '\'', '<'};
    calc {
      ReplaceAll(ReplaceAll(ReplaceAll(ReplaceAll(ReplaceAll(PartlyEscaped(s, {}),
        "&amp;", "&"), "&quot;", "\""), "&#39;", "'"), "&lt;", "<"), "&gt;", ">");
    == { DecodePass(s, {}, '&', d1, "&amp;", "&"); }
      ReplaceAll(ReplaceAll(ReplaceAll(ReplaceAll(PartlyEscaped(s, d1),
        "&quot;", "\""), "&#39;", "'"), "&lt;", "<"), "&gt;", ">");
    == { DecodePass(s, d1, '"', d2, "&quot;", "\""); }
      ReplaceAll(ReplaceAll(ReplaceAll(PartlyEscaped(s, d2), "&#39;", "'"), "&lt;", "<"), "&gt;", ">");
    == { DecodePass(s, d2, '\'', d3, "&#39;", "'"); }
      ReplaceAll(ReplaceAll(PartlyEscaped(s, d3), "&lt;", "<"), "&gt;", ">");
    == { DecodePass(s, d3, '<', d4, "&lt;", "<"); }
      ReplaceAll(PartlyEscaped(s, d4), "&gt;", ">");
    == { DecodePass(s, d4, '>', Specials, "&gt;", ">"); }
      PartlyEscaped(s, Specials);
    == { FullyDecodedIsText(s); }
      s;
    }
  }

  /** Decoding the escape of a text without `&` gives the text back, only
      trimmed: each of the five decoding passes undoes one kind of escape.
      With `&` the round trip fails: `&lt;` escapes to `&amp;lt;`, which
      decodes to `<`. */
  lemma DecodeXmlEntitiesInvertsEscape(s: string)
    requires '&' !in s
    ensures DecodeXmlEntities(EscapeHtml(s)) == Trim(s)
  {
    EscapeEachIsPartlyEscaped(s);
    DecodePasses(s);
  }
}
