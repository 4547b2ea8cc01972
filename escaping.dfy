/**
  The two escapers the exporters apply to recorded text: `escapeMd` for
  Markdown and `escHtml` for the HTML documents.
*/
module Escaping {

  /** The characters `escapeMd` protects: `*`, `_`, backquote and `~`. */
  predicate MdSpecial(c: char) {
    c == '*' || c == '_' || c == '`' || c == '~'
  }

  /** How many protected characters `s` holds. */
  function SpecialCount(s: string): nat {
    if s == [] then 0 else (if MdSpecial(s[0]) then 1 else 0) + SpecialCount(s[1..])
  }

  /** `escapeMd`: a backslash before every protected character. */
  function EscapeMd(s: string): (r: string)
    ensures |r| == |s| + SpecialCount(s)
    ensures s != [] ==> r != [] && !MdSpecial(r[0])
  {
    if s == [] then []
    else (if MdSpecial(s[0]) then ['\\', s[0]] else [s[0]]) + EscapeMd(s[1..])
  }

  /** The inverse of `escapeMd`'s own escapes: a backslash followed by a
      protected character stands for that character. (A CommonMark reader
      does more with backslashes; `ReadMd` below.) */
  function UnescapeMd(s: string): string
    decreases |s|
  {
    if s == [] then []
    else if |s| >= 2 && s[0] == '\\' && MdSpecial(s[1]) then [s[1]] + UnescapeMd(s[2..])
    else [s[0]] + UnescapeMd(s[1..])
  }

  /** Undoing the escapes gives back the original text. */
  lemma {:induction false} UnescapeEscapeMd(s: string)
    ensures UnescapeMd(EscapeMd(s)) == s
  {
    if s != [] {
      var rest := EscapeMd(s[1..]);
      UnescapeEscapeMd(s[1..]);
      if MdSpecial(s[0]) {
        var e := ['\\', s[0]] + rest;
        assert e[2..] == rest;
      } else {
        var e := [s[0]] + rest;
        assert e[1..] == rest;
        if s[0] == '\\' && |e| >= 2 {
          assert e[1] == rest[0];
        }
      }
      assert s == [s[0]] + s[1..];
    }
  }

  /** ASCII punctuation: the characters a CommonMark backslash escape applies to. */
  predicate AsciiPunct(c: char) {
    ('!' <= c <= '/') || (':' <= c <= '@') || ('[' <= c <= '`') || ('{' <= c <= '~')
  }

  /** A character as a CommonMark reader takes it: as text, or as one of the
      protected characters acting as markup (emphasis, code, strike-through). */
  datatype MdChar = Lit(c: char) | Active(c: char)

  /** How a CommonMark reader takes a text: a backslash before ASCII
      punctuation makes that character text (two backslashes are one);
      any other backslash is text; a protected character not escaped this
      way acts as markup. */
  function ReadMd(s: string): seq<MdChar>
    decreases |s|
  {
    if s == [] then []
    else if s[0] == '\\' && |s| >= 2 && AsciiPunct(s[1]) then [Lit(s[1])] + ReadMd(s[2..])
    else if MdSpecial(s[0]) then [Active(s[0])] + ReadMd(s[1..])
    else [Lit(s[0])] + ReadMd(s[1..])
  }

  /** Every character of `s`, taken as text. */
  function Literally(s: string): seq<MdChar> {
    if s == [] then [] else [Lit(s[0])] + Literally(s[1..])
  }

  /** For a text without a backslash, a CommonMark reader takes every
      character of the escaped text as text, the protected ones included:
      nothing recorded turns into emphasis or code. */
  lemma {:induction false} EscapeMdReadsLiterally(s: string)
    requires '\\' !in s
    ensures ReadMd(EscapeMd(s)) == Literally(s)
  {
    if s != [] {
      var rest := EscapeMd(s[1..]);
      assert '\\' !in s[1..] by { assert forall i :: 0 <= i < |s[1..]| ==> s[1..][i] == s[i + 1]; }
      EscapeMdReadsLiterally(s[1..]);
      if MdSpecial(s[0]) {
        var e := ['\\', s[0]] + rest;
        assert e[2..] == rest;
      } else {
        var e := [s[0]] + rest;
        assert e[1..] == rest;
      }
    }
  }

  /** `escapeMd` leaves a recorded backslash as it is, so a CommonMark reader
      pairs it with the next character: a recorded backslash and `!` are read
      as `!` alone, and a recorded backslash and `*` as a backslash followed
      by an active `*`. */
  lemma EscapeMdBackslashGap()
    ensures EscapeMd("\\!") == "\\!" && ReadMd(EscapeMd("\\!")) == [Lit('!')]
    ensures EscapeMd("\\*") == "\\\\*" && ReadMd(EscapeMd("\\*")) == [Lit('\\'), Active('*')]
  {
    assert EscapeMd("!") == "!" by { assert "!"[1..] == []; }
    assert EscapeMd("\\!") == "\\!" by { assert "\\!"[1..] == "!"; }
    assert ReadMd("\\!"[2..]) == [] by { assert "\\!"[2..] == []; }
    assert EscapeMd("*") == "\\*" by { assert "*"[1..] == []; }
    assert EscapeMd("\\*") == "\\\\*" by { assert "\\*"[1..] == "*"; }
    var e := "\\\\*";
    assert e[2..] == "*" && "*"[1..] == [];
  }

  /** Every protected character in the escaped text comes right after a backslash. */
  lemma {:induction false} EscapeMdGuardsSpecials(s: string)
    ensures forall i :: 0 <= i < |EscapeMd(s)| && MdSpecial(EscapeMd(s)[i]) ==> i > 0 && EscapeMd(s)[i - 1] == '\\'
  {
    if s != [] {
      EscapeMdGuardsSpecials(s[1..]);
      var rest := EscapeMd(s[1..]);
      var head: string := if MdSpecial(s[0]) then ['\\', s[0]] else [s[0]];
      var r := head + rest;
      assert r == EscapeMd(s);
      forall i | 0 <= i < |r| && MdSpecial(r[i]) ensures i > 0 && r[i - 1] == '\\' {
        if i < |head| {
          assert r[0] == head[0];
        } else if i > |head| {
          var k := i - |head|;
          assert r[i] == rest[k] && MdSpecial(rest[k]);
          assert rest[k - 1] == '\\';
          assert r[i - 1] == rest[k - 1];
        }
      }
    }
  }

  /** `s.replace(/c/g, rep)`. */
  function ReplaceChar(s: string, c: char, rep: string): (r: string)
    ensures c !in rep ==> c !in r
  {
    if s == [] then [] else (if s[0] == c then rep else [s[0]]) + ReplaceChar(s[1..], c, rep)
  }

  lemma {:induction false} ReplaceAppend(a: string, b: string, c: char, rep: string)
    ensures ReplaceChar(a + b, c, rep) == ReplaceChar(a, c, rep) + ReplaceChar(b, c, rep)
  {
    if a != [] {
      assert (a + b)[1..] == a[1..] + b;
      ReplaceAppend(a[1..], b, c, rep);
    } else {
      assert a + b == b;
    }
  }

  /** `escHtml`: `&` first, then `<`, then `>`. */
  function EscHtml(s: string): string {
    ReplaceChar(ReplaceChar(ReplaceChar(s, '&', "&amp;"), '<', "&lt;"), '>', "&gt;")
  }

  /** The entity a character becomes in one pass. */
  function EscChar(c: char): (r: string)
    ensures r != []
  {
    if c == '&' then "&amp;" else if c == '<' then "&lt;" else if c == '>' then "&gt;" else [c]
  }

  /** Escaping character by character, each character once. */
  function EscapeEach(s: string): string {
    if s == [] then [] else EscChar(s[0]) + EscapeEach(s[1..])
  }

  /** Replacing in a one-character text. */
  lemma ReplaceSingle(x: char, c: char, rep: string)
    ensures ReplaceChar([x], c, rep) == if x == c then rep else [x]
  {
    assert [x][1..] == [];
  }

  /** A text without `c` is left alone. */
  lemma {:induction false} ReplaceAbsent(s: string, c: char, rep: string)
    requires c !in s
    ensures ReplaceChar(s, c, rep) == s
  {
    if s != [] {
      assert c !in s[1..] by { assert forall i :: 0 <= i < |s[1..]| ==> s[1..][i] == s[i + 1]; }
      ReplaceAbsent(s[1..], c, rep);
      assert s == [s[0]] + s[1..];
    }
  }

  /** The three passes escape one character. */
  lemma EscHtmlChar(c: char)
    ensures EscHtml([c]) == EscChar(c)
  {
    ReplaceSingle(c, '&', "&amp;");
    if c == '&' {
      assert '<' !in "&amp;" && '>' !in "&amp;";
      ReplaceAbsent("&amp;", '<', "&lt;");
      ReplaceAbsent("&amp;", '>', "&gt;");
    } else {
      ReplaceSingle(c, '<', "&lt;");
      if c == '<' {
        assert '>' !in "&lt;";
        ReplaceAbsent("&lt;", '>', "&gt;");
      } else {
        ReplaceSingle(c, '>', "&gt;");
      }
    }
  }

  /** Because `&` is replaced first, the three passes never escape the `&` of
      an entity they made themselves: together they escape each character
      exactly once. */
  lemma {:induction false} EscHtmlIsEscapeEach(s: string)
    ensures EscHtml(s) == EscapeEach(s)
  {
    if s != [] {
      var rest := s[1..];
      assert s == [s[0]] + rest;
      ReplaceAppend([s[0]], rest, '&', "&amp;");
      ReplaceAppend(ReplaceChar([s[0]], '&', "&amp;"), ReplaceChar(rest, '&', "&amp;"), '<', "&lt;");
      ReplaceAppend(ReplaceChar(ReplaceChar([s[0]], '&', "&amp;"), '<', "&lt;"),
                    ReplaceChar(ReplaceChar(rest, '&', "&amp;"), '<', "&lt;"), '>', "&gt;");
      EscHtmlChar(s[0]);
      EscHtmlIsEscapeEach(rest);
    }
  }

  /** The escaped text holds no angle bracket, so recorded text can never open
      or close a tag. */
  lemma EscHtmlHasNoTags(s: string)
    ensures '<' !in EscHtml(s) && '>' !in EscHtml(s)
  {
    var a := ReplaceChar(s, '&', "&amp;");
    var b := ReplaceChar(a, '<', "&lt;");
    assert '<' !in b;
    ReplaceKeepsAbsent(b, '<', '>', "&gt;");
  }

  lemma {:induction false} ReplaceKeepsAbsent(s: string, x: char, c: char, rep: string)
    requires x !in s && x !in rep
    ensures x !in ReplaceChar(s, c, rep)
  {
    if s != [] {
      assert x !in s[1..] by { assert forall i :: 0 <= i < |s[1..]| ==> s[1..][i] == s[i + 1]; }
      ReplaceKeepsAbsent(s[1..], x, c, rep);
    }
  }

  /** Decoding `&amp;`, `&lt;` and `&gt;`. */
  function UnescHtml(s: string): string
    decreases |s|
  {
    if s == [] then []
    else if "&amp;" <= s then "&" + UnescHtml(s[5..])
    else if "&lt;" <= s then "<" + UnescHtml(s[4..])
    else if "&gt;" <= s then ">" + UnescHtml(s[4..])
    else [s[0]] + UnescHtml(s[1..])
  }

  /** Decoding the entities gives back the recorded text. */
  lemma {:induction false} UnescEscHtml(s: string)
    ensures UnescHtml(EscHtml(s)) == s
  {
    EscHtmlIsEscapeEach(s);
    UnescEscapeEach(s);
  }

  lemma {:induction false} UnescEscapeEach(s: string)
    ensures UnescHtml(EscapeEach(s)) == s
  {
    if s != [] {
      var rest := EscapeEach(s[1..]);
      var e := EscChar(s[0]) + rest;
      UnescEscapeEach(s[1..]);
      if s[0] == '&' {
        assert "&amp;" <= e && e[5..] == rest;
      } else if s[0] == '<' {
        assert e[1] == 'l' && "&amp;"[1] == 'a';
        assert "&lt;" <= e && e[4..] == rest;
      } else if s[0] == '>' {
        assert e[1] == 'g' && "&amp;"[1] == 'a' && "&lt;"[1] == 'l';
        assert "&gt;" <= e && e[4..] == rest;
      } else {
        assert e[0] == s[0] && e[1..] == rest;
        assert "&amp;"[0] == '&' && "&lt;"[0] == '&' && "&gt;"[0] == '&';
      }
      assert s == [s[0]] + s[1..];
    }
  }
}
