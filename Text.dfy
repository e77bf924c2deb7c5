/** String helpers the two apps rely on: `toLowerCase` (ASCII letters only),
    `trim`, `includes`, `slice(0, n)` and the HTML escapers. */
module Text {

  predicate IsUpper(c: char) { 'A' <= c <= 'Z' }

  function LowerChar(c: char): char
  {
    if IsUpper(c) then (c as int - 'A' as int + 'a' as int) as char else c
  }

  /** `String.prototype.toLowerCase`, restricted to the ASCII letters. */
  function ToLower(s: string): (r: string)
    ensures |r| == |s|
    ensures forall i :: 0 <= i < |s| ==> r[i] == LowerChar(s[i])
    ensures forall i :: 0 <= i < |r| ==> !IsUpper(r[i])
  {
    seq(|s|, i requires 0 <= i < |s| => LowerChar(s[i]))
  }

  /** The characters `String.prototype.trim` removes: the ECMAScript
      WhiteSpace code points (tab, vertical tab, form feed, space, no-break
      space, the byte order mark and the other space separators) and the
      four LineTerminator code points (line feed and carriage return fall
      in the range from tab to carriage return). */
  predicate IsWhitespace(c: char)
  {
    || '\t' <= c <= '\r'
    || c == ' ' || c == '\U{00A0}' || c == '\U{1680}'
    || '\U{2000}' <= c <= '\U{200A}'
    || c == '\U{2028}' || c == '\U{2029}' || c == '\U{202F}' || c == '\U{205F}'
    || c == '\U{3000}' || c == '\U{FEFF}'
  }

  predicate AllWhitespace(s: string)
  {
    forall i :: 0 <= i < |s| ==> IsWhitespace(s[i])
  }

  /** Neither end of `s` is whitespace. */
  predicate IsTrimmed(s: string)
  {
    s == [] || (!IsWhitespace(s[0]) && !IsWhitespace(s[|s| - 1]))
  }

  /** The index of the first character at or after `i` that is not
      whitespace, or `|s|`. */
  function SkipStart(s: string, i: nat): (j: nat)
    requires i <= |s|
    ensures i <= j <= |s|
    ensures forall k :: i <= k < j ==> IsWhitespace(s[k])
    ensures j == |s| || !IsWhitespace(s[j])
    decreases |s| - i
  {
    if i < |s| && IsWhitespace(s[i]) then SkipStart(s, i + 1) else i
  }

  /** The end of `s[lo..j]` once its trailing whitespace is dropped. */
  function SkipEnd(s: string, lo: nat, j: nat): (e: nat)
    requires lo <= j <= |s|
    ensures lo <= e <= j
    ensures forall k :: e <= k < j ==> IsWhitespace(s[k])
    ensures e == lo || !IsWhitespace(s[e - 1])
    decreases j
  {
    if lo < j && IsWhitespace(s[j - 1]) then SkipEnd(s, lo, j - 1) else j
  }

  /** `String.prototype.trim`: `s` without its leading and its trailing
      whitespace. It is empty exactly when `s` is all whitespace, which is
      when the apps' `!value.trim()` checks reject an input. */
  function Trim(s: string): (r: string)
    ensures IsTrimmed(r)
    ensures r == [] <==> AllWhitespace(s)
  {
    var a := SkipStart(s, 0);
    s[a..SkipEnd(s, a, |s|)]
  }

  /** What `trim` keeps is the middle of `s`, and all it cuts off on either
      side is whitespace. */
  lemma TrimIsSlice(s: string)
    ensures var a := SkipStart(s, 0);
            var b := SkipEnd(s, a, |s|);
            Trim(s) == s[a..b] && AllWhitespace(s[..a]) && AllWhitespace(s[b..])
  {
    var a := SkipStart(s, 0);
    var b := SkipEnd(s, a, |s|);
    forall k | 0 <= k < a ensures IsWhitespace(s[..a][k]) {
      assert s[..a][k] == s[k];
    }
    forall k | 0 <= k < |s| - b ensures IsWhitespace(s[b..][k]) {
      assert s[b..][k] == s[b + k];
    }
  }

  /** `s.slice(0, n)`. */
  function Prefix(s: string, n: nat): (r: string)
    ensures |r| == if |s| <= n then |s| else n
    ensures r == s[..|r|]
  {
    if |s| <= n then s else s[..n]
  }

  /** `sub` occurs in `text` starting at index `i`. */
  predicate OccursAt(text: string, sub: string, i: int)
  {
    0 <= i <= |text| - |sub| && text[i..i + |sub|] == sub
  }

  /** `text.includes(sub)`: `sub` occurs in `text` as a contiguous block
      (the empty string occurs in every string). */
  function Includes(text: string, sub: string): (r: bool)
    ensures r <==> exists i :: OccursAt(text, sub, i)
    decreases |text|
  {
    if |text| < |sub| then false
    else if OccursAt(text, sub, 0) then true
    else if |text| == 0 then false
    else
      var r := Includes(text[1..], sub);
      assert forall i :: OccursAt(text[1..], sub, i) <==> OccursAt(text, sub, i + 1) by {
        forall i ensures OccursAt(text[1..], sub, i) <==> OccursAt(text, sub, i + 1) {
          if 0 <= i <= |text| - 1 - |sub| {
            assert text[1..][i..i + |sub|] == text[i + 1..i + 1 + |sub|];
          }
        }
      }
      assert forall i :: OccursAt(text, sub, i) ==> i == 0 || OccursAt(text[1..], sub, i - 1);
      r
  }

  /** The replacement `escapeHtml` makes for one character. */
  function Entity(c: char): string
  {
    match c
    case '&' => "&amp;"
    case '<' => "&lt;"
    case '>' => "&gt;"
    case '"' => "&quot;"
    case '\'' => "&#39;"
    case _ => [c]
  }

  /** The five characters `escapeHtml` replaces. */
  predicate IsMarkup(c: char)
  {
    c == '&' || c == '<' || c == '>' || c == '"' || c == '\''
  }

  /** `escapeHtml` (identical in both apps): every character is replaced
      by its `Entity`. No angle bracket or quote survives. */
  function EscapeHtml(s: string): (r: string)
    ensures |r| >= |s|
    ensures forall i :: 0 <= i < |r| ==> r[i] != '<' && r[i] != '>' && r[i] != '"' && r[i] != '\''
  {
    if s == [] then [] else Entity(s[0]) + EscapeHtml(s[1..])
  }

  /** `escapeAttr`: every double quote becomes `&quot;`, all else stays. */
  function EscapeAttr(s: string): (r: string)
    ensures |r| >= |s|
    ensures forall i :: 0 <= i < |r| ==> r[i] != '"'
  {
    if s == [] then []
    else (if s[0] == '"' then "&quot;" else [s[0]]) + EscapeAttr(s[1..])
  }

  /** How an HTML reader decodes the five entities `escapeHtml` writes;
      every other character is read as itself. This is the reference
      inverse against which the escapers are checked. */
  function UnescapeHtml(t: string): string
    decreases |t|
  {
    if t == [] then []
    else if t[0] != '&' then [t[0]] + UnescapeHtml(t[1..])
    else if |t| >= 5 && t[..5] == "&amp;" then ['&'] + UnescapeHtml(t[5..])
    else if |t| >= 4 && t[..4] == "&lt;" then ['<'] + UnescapeHtml(t[4..])
    else if |t| >= 4 && t[..4] == "&gt;" then ['>'] + UnescapeHtml(t[4..])
    else if |t| >= 6 && t[..6] == "&quot;" then ['"'] + UnescapeHtml(t[6..])
    else if |t| >= 5 && t[..5] == "&#39;" then ['\''] + UnescapeHtml(t[5..])
    else [t[0]] + UnescapeHtml(t[1..])
  }

  /** Decoding an entity followed by anything gives its character followed
      by the decoding of the rest. */
  lemma UnescapeEntity(c: char, rest: string)
    ensures UnescapeHtml(Entity(c) + rest) == [c] + UnescapeHtml(rest)
  {
    var t := Entity(c) + rest;
    match c
    case '&' =>
      assert t[..5] == "&amp;" && t[5..] == rest;
    case '<' =>
      assert t[..4] == "&lt;" && t[4..] == rest && t[1] == 'l';
    case '>' =>
      assert t[..4] == "&gt;" && t[4..] == rest && t[1] == 'g';
    case '"' =>
      assert t[..6] == "&quot;" && t[6..] == rest && t[1] == 'q';
    case '\'' =>
      assert t[..5] == "&#39;" && t[5..] == rest && t[1] == '#';
    case _ =>
      assert t[0] == c && t[1..] == rest;
  }

  /** Escaping loses nothing: an HTML reader gets the original text back. */
  lemma {:induction false} UnescapeEscapeHtml(s: string)
    ensures UnescapeHtml(EscapeHtml(s)) == s
  {
    if s != [] {
      UnescapeEntity(s[0], EscapeHtml(s[1..]));
      UnescapeEscapeHtml(s[1..]);
      assert s == [s[0]] + s[1..];
    }
  }

  /** On one character `escapeHtml` gives that character's entity, which is
      the character itself exactly when it is not one of `&<>"'`. */
  lemma EscapeHtmlChar(c: char)
    ensures EscapeHtml([c]) == Entity(c)
    ensures Entity(c) == [c] <==> !IsMarkup(c)
  {
    assert [c][1..] == [];
  }

  /** Escaping works character by character. */
  lemma {:induction false} EscapeHtmlAppend(a: string, b: string)
    ensures EscapeHtml(a + b) == EscapeHtml(a) + EscapeHtml(b)
  {
    if a != [] {
      assert (a + b)[0] == a[0] && (a + b)[1..] == a[1..] + b;
      EscapeHtmlAppend(a[1..], b);
      calc {
        EscapeHtml(a + b);
        Entity(a[0]) + EscapeHtml(a[1..] + b);
        Entity(a[0]) + (EscapeHtml(a[1..]) + EscapeHtml(b));
        (Entity(a[0]) + EscapeHtml(a[1..])) + EscapeHtml(b);
      }
    } else {
      assert a + b == b;
    }
  }

  /** Text without any of `&<>"'` is left exactly as it was. */
  lemma {:induction false} EscapeHtmlKeepsPlainText(s: string)
    requires forall i :: 0 <= i < |s| ==> !IsMarkup(s[i])
    ensures EscapeHtml(s) == s
  {
    if s != [] {
      EscapeHtmlKeepsPlainText(s[1..]);
    }
  }

  /** In text without `&`, `escapeAttr` is undone by an HTML reader too:
      its `&quot;` reads back as the quote it replaced. */
  lemma {:induction false} UnescapeEscapeAttr(s: string)
    requires forall i :: 0 <= i < |s| ==> s[i] != '&'
    ensures UnescapeHtml(EscapeAttr(s)) == s
  {
    if s != [] {
      UnescapeEscapeAttr(s[1..]);
      if s[0] == '"' {
        UnescapeEntity('"', EscapeAttr(s[1..]));
      } else {
        var t := [s[0]] + EscapeAttr(s[1..]);
        assert t[0] == s[0] && t[1..] == EscapeAttr(s[1..]);
      }
      assert s == [s[0]] + s[1..];
    }
  }

  /** Lowering is idempotent. */
  lemma ToLowerIdempotent(s: string)
    ensures ToLower(ToLower(s)) == ToLower(s)
  {
  }

  /** An exact occurrence is also an occurrence after both sides are
      lowered, so a case-insensitive search finds every literal match. */
  lemma IncludesToLower(text: string, sub: string)
    requires Includes(text, sub)
    ensures Includes(ToLower(text), ToLower(sub))
  {
    var i :| OccursAt(text, sub, i);
    assert ToLower(text)[i..i + |sub|] == ToLower(sub);
    assert OccursAt(ToLower(text), ToLower(sub), i);
  }

  /** Trimming twice is trimming once. */
  lemma TrimIdempotent(s: string)
    ensures Trim(Trim(s)) == Trim(s)
  {
  }
}
