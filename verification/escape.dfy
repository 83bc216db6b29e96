/** `escapeHtml`: five `replaceAll` passes over the text, `&` first, so the
    ampersands the later passes introduce are never escaped again. */
module Escape {
  import opened Wrappers

  /** `s.replaceAll(c, rep)` for a one-character pattern and a replacement
      without `$` patterns. */
  function ReplaceAll(s: string, c: char, rep: string): (r: string)
    ensures c !in s ==> r == s
  {
    if s == [] then []
    else (if s[0] == c then rep else [s[0]]) + ReplaceAll(s[1..], c, rep)
  }

  lemma {:induction false} ReplaceAllConcat(a: string, b: string, c: char, rep: string)
    ensures ReplaceAll(a + b, c, rep) == ReplaceAll(a, c, rep) + ReplaceAll(b, c, rep)
    decreases |a|
  {
    if a == [] {
      assert a + b == b;
    } else {
      assert (a + b)[1..] == a[1..] + b;
      ReplaceAllConcat(a[1..], b, c, rep);
    }
  }

  /** The chain exactly as written. */
  function EscapeHtml(s: string): string {
    var amp := ReplaceAll(s, '&', "&amp;");
    var lt := ReplaceAll(amp, '<', "&lt;");
    var gt := ReplaceAll(lt, '>', "&gt;");
    var quot := ReplaceAll(gt, '"', "&quot;");
    ReplaceAll(quot, '\'', "&#039;")
  }

  /** The entity for one character, the character itself when it needs none. */
  function EscapeChar(c: char): string {
    match c
    case '&' => "&amp;"
    case '<' => "&lt;"
    case '>' => "&gt;"
    case '"' => "&quot;"
    case '\'' => "&#039;"
    case _ => [c]
  }

  predicate IsSpecial(c: char) {
    c == '&' || c == '<' || c == '>' || c == '"' || c == '\''
  }

  /** The reference definition: each character mapped on its own. */
  function EscapeEach(s: string): string {
    if s == [] then [] else EscapeChar(s[0]) + EscapeEach(s[1..])
  }

  lemma EscapeHtmlConcat(a: string, b: string)
    ensures EscapeHtml(a + b) == EscapeHtml(a) + EscapeHtml(b)
  {
    ReplaceAllConcat(a, b, '&', "&amp;");
    var a1, b1 := ReplaceAll(a, '&', "&amp;"), ReplaceAll(b, '&', "&amp;");
    ReplaceAllConcat(a1, b1, '<', "&lt;");
    var a2, b2 := ReplaceAll(a1, '<', "&lt;"), ReplaceAll(b1, '<', "&lt;");
    ReplaceAllConcat(a2, b2, '>', "&gt;");
    var a3, b3 := ReplaceAll(a2, '>', "&gt;"), ReplaceAll(b2, '>', "&gt;");
    ReplaceAllConcat(a3, b3, '"', "&quot;");
    var a4, b4 := ReplaceAll(a3, '"', "&quot;"), ReplaceAll(b3, '"', "&quot;");
    ReplaceAllConcat(a4, b4, '\'', "&#039;");
  }

  /** On one character the passes produce its entity: no replacement text
      contains a character a later pass looks for. */
  lemma EscapeHtmlChar(c: char)
    ensures EscapeHtml([c]) == EscapeChar(c)
  {
    ReplaceAllOne(c, '&', "&amp;");
    if c == '&' {
      assert '<' !in "&amp;" && '>' !in "&amp;" && '"' !in "&amp;" && '\'' !in "&amp;";
    } else {
      ReplaceAllOne(c, '<', "&lt;");
      if c == '<' {
        assert '>' !in "&lt;" && '"' !in "&lt;" && '\'' !in "&lt;";
      } else {
        ReplaceAllOne(c, '>', "&gt;");
        if c == '>' {
          assert '"' !in "&gt;" && '\'' !in "&gt;";
        } else {
          ReplaceAllOne(c, '"', "&quot;");
          if c == '"' {
            assert '\'' !in "&quot;";
          } else {
            ReplaceAllOne(c, '\'', "&#039;");
          }
        }
      }
    }
  }

  lemma ReplaceAllOne(c: char, d: char, rep: string)
    ensures ReplaceAll([c], d, rep) == if c == d then rep else [c]
  {
    assert [c][1..] == [];
  }

  /** The five sequential passes equal the single character-wise pass. */
  lemma {:induction false} EscapeHtmlIsEach(s: string)
    ensures EscapeHtml(s) == EscapeEach(s)
    decreases |s|
  {
    if s != [] {
      assert s == [s[0]] + s[1..];
      EscapeHtmlConcat([s[0]], s[1..]);
      EscapeHtmlChar(s[0]);
      EscapeHtmlIsEach(s[1..]);
    }
  }

  /** `t` continues at position `i` with `e`. */
  predicate HasAt(t: string, i: int, e: string) {
    0 <= i && i + |e| <= |t| && t[i..i + |e|] == e
  }

  predicate StartsEntity(t: string, i: int) {
    HasAt(t, i, "&amp;") || HasAt(t, i, "&lt;") || HasAt(t, i, "&gt;")
    || HasAt(t, i, "&quot;") || HasAt(t, i, "&#039;")
  }

  /** What escaped text looks like: no markup-significant character other
      than `&`, and each `&` opens one of the five entities. */
  predicate IsEscaped(t: string) {
    && (forall i :: 0 <= i < |t| ==> t[i] != '<' && t[i] != '>' && t[i] != '"' && t[i] != '\'')
    && (forall i :: 0 <= i < |t| && t[i] == '&' ==> StartsEntity(t, i))
  }

  lemma HasAtShift(a: string, b: string, i: int, e: string)
    requires HasAt(b, i, e)
    ensures HasAt(a + b, |a| + i, e)
  {
    assert (a + b)[|a| + i..|a| + i + |e|] == b[i..i + |e|];
  }

  lemma EntityShift(a: string, b: string, i: int)
    requires StartsEntity(b, i)
    ensures StartsEntity(a + b, |a| + i)
  {
    if HasAt(b, i, "&amp;") { HasAtShift(a, b, i, "&amp;"); }
    else if HasAt(b, i, "&lt;") { HasAtShift(a, b, i, "&lt;"); }
    else if HasAt(b, i, "&gt;") { HasAtShift(a, b, i, "&gt;"); }
    else if HasAt(b, i, "&quot;") { HasAtShift(a, b, i, "&quot;"); }
    else { HasAtShift(a, b, i, "&#039;"); }
  }

  /** One escaped character, followed by anything, starts as escaped text does. */
  lemma EscapedCharStarts(c: char, rest: string)
    ensures var t := EscapeChar(c) + rest;
      && (forall i :: 0 <= i < |EscapeChar(c)| ==> t[i] != '<' && t[i] != '>' && t[i] != '"' && t[i] != '\'')
      && (forall i :: 0 <= i < |EscapeChar(c)| && t[i] == '&' ==> i == 0 && StartsEntity(t, 0))
  {
    var t := EscapeChar(c) + rest;
    if c == '&' { assert HasAt(t, 0, "&amp;"); }
    else if c == '<' { assert HasAt(t, 0, "&lt;"); }
    else if c == '>' { assert HasAt(t, 0, "&gt;"); }
    else if c == '"' { assert HasAt(t, 0, "&quot;"); }
    else if c == '\'' { assert HasAt(t, 0, "&#039;"); }
  }

  lemma {:induction false} EachIsEscaped(s: string)
    ensures IsEscaped(EscapeEach(s))
    decreases |s|
  {
    if s != [] {
      EachIsEscaped(s[1..]);
      var head, rest := EscapeChar(s[0]), EscapeEach(s[1..]);
      var t := head + rest;
      assert EscapeEach(s) == t;
      EscapedCharStarts(s[0], rest);
      forall i | |head| <= i < |t|
        ensures t[i] != '<' && t[i] != '>' && t[i] != '"' && t[i] != '\''
        ensures t[i] == '&' ==> StartsEntity(t, i)
      {
        assert t[i] == rest[i - |head|];
        if t[i] == '&' {
          EntityShift(head, rest, i - |head|);
        }
      }
    }
  }

  /** The escaped text contains none of `<`, `>`, `"`, `'`, and every `&` in
      it begins `&amp;`, `&lt;`, `&gt;`, `&quot;` or `&#039;`. */
  lemma EscapeHtmlIsEscaped(s: string)
    ensures IsEscaped(EscapeHtml(s))
  {
    EscapeHtmlIsEach(s);
    EachIsEscaped(s);
  }

  /** The text is left alone exactly when it holds none of the five characters. */
  lemma {:induction false} EscapeHtmlIdentity(s: string)
    ensures EscapeHtml(s) == s <==> forall i :: 0 <= i < |s| ==> !IsSpecial(s[i])
  {
    EscapeHtmlIsEach(s);
    EachLength(s);
  }

  lemma {:induction false} EachLength(s: string)
    ensures |EscapeEach(s)| >= |s|
    ensures |EscapeEach(s)| == |s| ==> forall i :: 0 <= i < |s| ==> !IsSpecial(s[i])
    ensures (forall i :: 0 <= i < |s| ==> !IsSpecial(s[i])) ==> EscapeEach(s) == s
    decreases |s|
  {
    if s != [] {
      EachLength(s[1..]);
      assert s == [s[0]] + s[1..];
      assert forall i :: 1 <= i < |s| ==> s[i] == s[1..][i - 1];
    }
  }

  /** The entity `t` opens with, as the character it stands for and its length. */
  function EntityAt(t: string): (r: Option<(char, nat)>)
    ensures r.Some? ==> 0 < r.value.1 <= |t|
  {
    if HasAt(t, 0, "&amp;") then Some(('&', 5))
    else if HasAt(t, 0, "&lt;") then Some(('<', 4))
    else if HasAt(t, 0, "&gt;") then Some(('>', 4))
    else if HasAt(t, 0, "&quot;") then Some(('"', 6))
    else if HasAt(t, 0, "&#039;") then Some(('\'', 6))
    else None
  }

  /** Decodes the five entities back to their characters. */
  function Unescape(t: string): string
    decreases |t|
  {
    if t == [] then []
    else match EntityAt(t)
      case Some((c, n)) => [c] + Unescape(t[n..])
      case None => [t[0]] + Unescape(t[1..])
  }

  /** Escaping loses nothing: decoding the entities gives the text back. */
  lemma {:induction false} UnescapeEscapeHtml(s: string)
    ensures Unescape(EscapeHtml(s)) == s
  {
    EscapeHtmlIsEach(s);
    UnescapeEach(s);
  }

  lemma {:induction false} UnescapeEach(s: string)
    ensures Unescape(EscapeEach(s)) == s
    decreases |s|
  {
    if s != [] {
      UnescapeEach(s[1..]);
      UnescapeStep(s[0], EscapeEach(s[1..]));
      assert s == [s[0]] + s[1..];
    }
  }

  /** Decoding reads one escaped character off the front. */
  lemma UnescapeStep(c: char, rest: string)
    ensures Unescape(EscapeChar(c) + rest) == [c] + Unescape(rest)
  {
    var head := EscapeChar(c);
    var t := head + rest;
    assert t[|head|..] == rest;
    EntityOfEscaped(c, rest);
  }

  lemma EntityOfEscaped(c: char, rest: string)
    ensures EntityAt(EscapeChar(c) + rest)
      == if IsSpecial(c) then Some((c, |EscapeChar(c)|)) else None
  {
    var t := EscapeChar(c) + rest;
    if c == '&' {
      assert HasAt(t, 0, "&amp;");
    } else if c == '<' {
      assert t[1] == 'l';
      assert HasAt(t, 0, "&lt;");
    } else if c == '>' {
      assert t[1] == 'g';
      assert HasAt(t, 0, "&gt;");
    } else if c == '"' {
      assert t[1] == 'q';
      assert HasAt(t, 0, "&quot;");
    } else if c == '\'' {
      assert t[1] == '#';
      assert HasAt(t, 0, "&#039;");
    } else {
      assert t[0] == c;
    }
  }
}
