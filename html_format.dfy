/** The label writer's markup escaping (`html_formatting`): three successive
    `str.replace` calls that make whitespace safe for the HTML label template. */
module HtmlFormat {

  const Nbsp: string := "&nbsp;"
  const LineBreak: string := "<br />"
  const TabNbsp: string := Nbsp + Nbsp + Nbsp + Nbsp

  /** Python's `s.replace(c, rep)` for a one-character pattern: every
      occurrence of `c` is replaced by `rep`, everything else is kept. */
  function ReplaceChar(s: string, c: char, rep: string): string {
    if s == [] then []
    else (if s[0] == c then rep else [s[0]]) + ReplaceChar(s[1..], c, rep)
  }

  /** `html_formatting`: spaces first, then newlines, then tabs. The order is
      observable: the space inside the emitted `<br />` is not replaced. */
  function HtmlFormatting(s: string): string {
    var noSpaces := ReplaceChar(s, ' ', Nbsp);
    var noNewlines := ReplaceChar(noSpaces, '\n', LineBreak);
    ReplaceChar(noNewlines, '\t', TabNbsp)
  }

  /** Reference definition: what each character becomes on its own. */
  function EscapeChar(x: char): string {
    if x == ' ' then Nbsp
    else if x == '\n' then LineBreak
    else if x == '\t' then TabNbsp
    else [x]
  }

  /** Reference definition: escape character by character. */
  function Escape(s: string): string {
    if s == [] then [] else EscapeChar(s[0]) + Escape(s[1..])
  }

  /** Replacing a character the text does not contain changes nothing. */
  lemma {:induction false} ReplaceCharAbsent(s: string, c: char, rep: string)
    requires c !in s
    ensures ReplaceChar(s, c, rep) == s
  {
    if s != [] {
      assert s == [s[0]] + s[1..];
      ReplaceCharAbsent(s[1..], c, rep);
    }
  }

  /** `replace` works piecewise: on a concatenation it replaces in each part. */
  lemma {:induction false} ReplaceCharConcat(a: string, b: string, c: char, rep: string)
    ensures ReplaceChar(a + b, c, rep) == ReplaceChar(a, c, rep) + ReplaceChar(b, c, rep)
  {
    if a == [] {
      assert a + b == b;
    } else {
      assert (a + b)[0] == a[0];
      assert (a + b)[1..] == a[1..] + b;
      ReplaceCharConcat(a[1..], b, c, rep);
    }
  }

  /** The escaping of a concatenation is the concatenation of the escapings. */
  lemma HtmlFormattingConcat(a: string, b: string)
    ensures HtmlFormatting(a + b) == HtmlFormatting(a) + HtmlFormatting(b)
  {
    ReplaceCharConcat(a, b, ' ', Nbsp);
    var a1, b1 := ReplaceChar(a, ' ', Nbsp), ReplaceChar(b, ' ', Nbsp);
    ReplaceCharConcat(a1, b1, '\n', LineBreak);
    var a2, b2 := ReplaceChar(a1, '\n', LineBreak), ReplaceChar(b1, '\n', LineBreak);
    ReplaceCharConcat(a2, b2, '\t', TabNbsp);
  }

  /** `replace` on a one-character text. */
  lemma ReplaceCharSingle(x: char, c: char, rep: string)
    ensures ReplaceChar([x], c, rep) == if x == c then rep else [x]
  {
    assert [x][1..] == [];
  }

  /** One character through the chain: a space gives `&nbsp;`, a newline
      `<br />`, a tab four `&nbsp;`, and any other character is kept. */
  lemma HtmlFormattingChar(x: char)
    ensures HtmlFormatting([x]) == EscapeChar(x)
  {
    ReplaceCharSingle(x, ' ', Nbsp);
    if x == ' ' {
      ReplaceCharAbsent(Nbsp, '\n', LineBreak);
      ReplaceCharAbsent(Nbsp, '\t', TabNbsp);
    } else {
      ReplaceCharSingle(x, '\n', LineBreak);
      if x == '\n' {
        ReplaceCharAbsent(LineBreak, '\t', TabNbsp);
      } else {
        ReplaceCharSingle(x, '\t', TabNbsp);
      }
    }
  }

  /** The three chained replacements agree with the per-character reference. */
  lemma {:induction false} HtmlFormattingIsEscape(s: string)
    ensures HtmlFormatting(s) == Escape(s)
  {
    if s != [] {
      assert s == [s[0]] + s[1..];
      HtmlFormattingConcat([s[0]], s[1..]);
      HtmlFormattingChar(s[0]);
      HtmlFormattingIsEscape(s[1..]);
    }
  }

  /** Only the escaping of a newline holds a space; the lengths per case. */
  lemma EscapeCharCounts(x: char)
    ensures multiset(EscapeChar(x))[' '] == if x == '\n' then 1 else 0
    ensures |EscapeChar(x)| == 1 + (if x == ' ' || x == '\n' then 5 else if x == '\t' then 23 else 0)
  {
    if x == '\n' {
      assert EscapeChar(x) == "<br" + [' '] + "/>";
      assert ' ' !in "<br" && ' ' !in "/>";
    } else {
      assert ' ' !in EscapeChar(x);
    }
  }

  /** No replacement text holds a newline or a tab. */
  lemma EscapeCharNoNewlineOrTab(x: char)
    ensures '\n' !in EscapeChar(x) && '\t' !in EscapeChar(x)
  {
  }

  /** Counting facts of the reference: each newline leaves one literal space,
      and each space, newline and tab lengthens the text by a fixed amount. */
  lemma {:induction false} EscapeCounts(s: string)
    ensures multiset(Escape(s))[' '] == multiset(s)['\n']
    ensures '\n' !in Escape(s) && '\t' !in Escape(s)
    ensures |Escape(s)| == |s| + 5 * (multiset(s)[' '] + multiset(s)['\n']) + 23 * multiset(s)['\t']
  {
    if s != [] {
      assert s == [s[0]] + s[1..];
      assert multiset(s) == multiset([s[0]]) + multiset(s[1..]);
      EscapeCharCounts(s[0]);
      EscapeCharNoNewlineOrTab(s[0]);
      EscapeCounts(s[1..]);
    }
  }

  /** The output never holds a raw newline or tab. */
  lemma HtmlFormattingNoNewlineOrTab(s: string)
    ensures '\n' !in HtmlFormatting(s) && '\t' !in HtmlFormatting(s)
  {
    HtmlFormattingIsEscape(s);
    EscapeCounts(s);
  }

  /** The only literal spaces in the output are those of emitted `<br />`
      tags: one per newline of the input. */
  lemma HtmlFormattingSpaces(s: string)
    ensures multiset(HtmlFormatting(s))[' '] == multiset(s)['\n']
    ensures ' ' in HtmlFormatting(s) <==> '\n' in s
  {
    HtmlFormattingIsEscape(s);
    EscapeCounts(s);
  }

  /** The output grows by 5 characters per space or newline and 23 per tab. */
  lemma HtmlFormattingLength(s: string)
    ensures |HtmlFormatting(s)| == |s| + 5 * (multiset(s)[' '] + multiset(s)['\n']) + 23 * multiset(s)['\t']
  {
    HtmlFormattingIsEscape(s);
    EscapeCounts(s);
  }

  /** Text is returned unchanged exactly when it has no space, newline or tab. */
  lemma HtmlFormattingFixedIff(s: string)
    ensures HtmlFormatting(s) == s <==> ' ' !in s && '\n' !in s && '\t' !in s
  {
    HtmlFormattingLength(s);
    if ' ' !in s && '\n' !in s && '\t' !in s {
      ReplaceCharAbsent(s, ' ', Nbsp);
      ReplaceCharAbsent(s, '\n', LineBreak);
      ReplaceCharAbsent(s, '\t', TabNbsp);
    }
  }

  /** Escaping twice equals escaping once exactly when the input has no
      newline: the space of an emitted `<br />` is escaped the second time. */
  lemma HtmlFormattingIdempotentIff(s: string)
    ensures HtmlFormatting(HtmlFormatting(s)) == HtmlFormatting(s) <==> '\n' !in s
  {
    var t := HtmlFormatting(s);
    HtmlFormattingSpaces(s);
    HtmlFormattingNoNewlineOrTab(s);
    HtmlFormattingFixedIff(t);
  }

  /** A single space between two plain words is the only thing escaped. */
  lemma EscapeAroundSpace(head: string, tail: string)
    requires ' ' !in head && '\n' !in head && '\t' !in head
    requires ' ' !in tail && '\n' !in tail && '\t' !in tail
    ensures HtmlFormatting(head + [' '] + tail) == head + Nbsp + tail
  {
    HtmlFormattingFixedIff(head);
    HtmlFormattingFixedIff(tail);
    HtmlFormattingChar(' ');
    HtmlFormattingConcat(head, [' ']);
    HtmlFormattingConcat(head + [' '], tail);
  }

  /** Two words around single spaces: only the spaces change. */
  lemma EscapeTwoSpaces(a: string, b: string, c: string)
    requires ' ' !in a && '\n' !in a && '\t' !in a
    requires ' ' !in b && '\n' !in b && '\t' !in b
    requires ' ' !in c && '\n' !in c && '\t' !in c
    ensures HtmlFormatting(a + [' '] + b + [' '] + c) == a + Nbsp + b + Nbsp + c
  {
    EscapeAroundSpace(a, b);
    HtmlFormattingConcat(a + [' '] + b, [' '] + c);
    HtmlFormattingConcat([' '], c);
    HtmlFormattingFixedIff(c);
    HtmlFormattingChar(' ');
    assert a + [' '] + b + [' '] + c == (a + [' '] + b) + ([' '] + c);
  }

  /** A concrete witness that the function is not idempotent: a newline
      becomes `<br />`, and escaping that again yields `<br&nbsp;/>`.
      The literal comes in as a parameter fixed by `requires`: unfolding
      `HtmlFormatting` on a string literal is too expensive for the verifier. */
  lemma HtmlFormattingNotIdempotent(s: string, once: string)
    requires s == "\n" && once == "<br" + [' '] + "/>"
    ensures HtmlFormatting(s) == once
    ensures HtmlFormatting(once) == "<br" + Nbsp + "/>"
  {
    HtmlFormattingChar('\n');
    EscapeAroundSpace("<br", "/>");
  }
}
