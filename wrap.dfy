/**
 * `wrap_text`, the greedy word wrapper nested in `add_text_to_image`.
 *
 * The font enters only through `width`, the width of a string as the font
 * measures it (`bbox[2] - bbox[0]` of `font.getbbox(s)`); nothing about it is
 * assumed. The wrapper's quirks are kept: a word that fits is appended as
 * " " + word, so a line that grew from the empty line starts with a space, and
 * a paragraph whose first word is too wide starts with an empty line.
 */
module Wrap {
  import opened Text

  /** The separator `text.split("\n")` cuts paragraphs at. */
  const ParagraphBreak: char := '\n'

  /**
   * The lines emitted while placing `words`, when the line being built is
   * `current`: the inner loop of `wrap_text` and the `lines.append(current_line)`
   * after it.
   */
  function Fill(words: seq<string>, current: string, width: string -> int, maxWidth: int): (lines: seq<string>)
    ensures 1 <= |lines| <= |words| + 1
    decreases |words|
  {
    if words == [] then [current]
    else
      var joined := current + " " + words[0];
      if width(joined) <= maxWidth then Fill(words[1..], joined, width, maxWidth)
      else [current] + Fill(words[1..], words[0], width, maxWidth)
  }

  /**
   * The lines of the first |paragraphs| iterations of the outer loop: each
   * paragraph gives `Fill(Words(paragraph), "", ...)`, closed by "".
   */
  function WrapParagraphs(paragraphs: seq<string>, width: string -> int, maxWidth: int): seq<string> {
    if paragraphs == [] then []
    else
      var n := |paragraphs|;
      WrapParagraphs(paragraphs[..n - 1], width, maxWidth) + Fill(Words(paragraphs[n - 1]), "", width, maxWidth) + [""]
  }

  /** `wrap_text(text, font, max_width)`. */
  function Wrapped(text: string, width: string -> int, maxWidth: int): seq<string> {
    WrapParagraphs(Split(text, ParagraphBreak), width, maxWidth)
  }

  /** `wrap_text` as the script runs it: loops over paragraphs and words, appending to `lines`. */
  method WrapText(text: string, width: string -> int, maxWidth: int) returns (lines: seq<string>)
    ensures lines == Wrapped(text, width, maxWidth)
  {
    lines := [];
    var paragraphs := Split(text, ParagraphBreak);
    for i := 0 to |paragraphs|
      invariant lines == WrapParagraphs(paragraphs[..i], width, maxWidth)
    {
      var words := Words(paragraphs[i]);
      var currentLine := "";
      ghost var before := lines;
      for j := 0 to |words|
        invariant lines + Fill(words[j..], currentLine, width, maxWidth) == before + Fill(words, "", width, maxWidth)
      {
        var word := words[j];
        assert words[j..][1..] == words[j + 1..];
        if width(currentLine + " " + word) <= maxWidth {
          currentLine := currentLine + " " + word;
        } else {
          lines := lines + [currentLine];
          currentLine := word;
        }
      }
      lines := lines + [currentLine];
      lines := lines + [""];
      assert paragraphs[..i + 1][..i] == paragraphs[..i];
    }
    assert paragraphs[..|paragraphs|] == paragraphs;
  }

  // ---------------------------------------------------------------------------
  // Structure: every paragraph ends with exactly one blank line
  // ---------------------------------------------------------------------------

  /**
   * Each paragraph gives at least one line and then the blank separator, so the
   * result has at least two lines per paragraph and ends with "".
   */
  lemma {:induction false} WrapParagraphsShape(paragraphs: seq<string>, width: string -> int, maxWidth: int)
    ensures var r := WrapParagraphs(paragraphs, width, maxWidth);
      |r| >= 2 * |paragraphs| && (paragraphs != [] ==> r[|r| - 1] == "")
    decreases |paragraphs|
  {
    if paragraphs != [] {
      WrapParagraphsShape(paragraphs[..|paragraphs| - 1], width, maxWidth);
    }
  }

  /** The wrapped text ends with the blank line and has two lines or more per `text.split("\n")` paragraph. */
  lemma WrappedShape(text: string, width: string -> int, maxWidth: int)
    ensures var r := Wrapped(text, width, maxWidth);
      |r| >= 2 * |Split(text, ParagraphBreak)| >= 2 && r[|r| - 1] == ""
  {
    WrapParagraphsShape(Split(text, ParagraphBreak), width, maxWidth);
  }

  /**
   * A paragraph starts with the empty line exactly when it has no words or its
   * first word does not fit after a space; a paragraph without words is just "".
   */
  lemma ParagraphFirstLine(paragraph: string, width: string -> int, maxWidth: int)
    ensures var words := Words(paragraph);
      var lines := Fill(Words(paragraph), "", width, maxWidth);
      && (words == [] ==> lines == [""])
      && (lines[0] == "" <==> words == [] || width(" " + words[0]) > maxWidth)
  {
    var words := Words(paragraph);
    if words != [] {
      var joined := "" + " " + words[0];
      assert joined == " " + words[0];
      if width(joined) <= maxWidth {
        FillFirstLine(words[1..], joined, width, maxWidth);
      }
    }
  }

  /** The first line emitted starts with the line being built, followed by nothing or by a space. */
  lemma {:induction false} FillFirstLine(words: seq<string>, current: string, width: string -> int, maxWidth: int)
    ensures var first := Fill(words, current, width, maxWidth)[0];
      |current| <= |first| && first[..|current|] == current && (|first| > |current| ==> first[|current|] == ' ')
    decreases |words|
  {
    if words != [] {
      var joined := current + " " + words[0];
      if width(joined) <= maxWidth {
        FillFirstLine(words[1..], joined, width, maxWidth);
        var first := Fill(words[1..], joined, width, maxWidth)[0];
        assert first[..|current|] == first[..|joined|][..|current|];
        assert first[|current|] == first[..|joined|][|current|];
      }
    }
  }

  // ---------------------------------------------------------------------------
  // Word preservation
  // ---------------------------------------------------------------------------

  /** Filling places exactly the given words after those of the line being built, in order. */
  lemma {:induction false} FillWords(words: seq<string>, current: string, width: string -> int, maxWidth: int)
    requires forall w :: w in words ==> IsWord(w)
    ensures WordsOf(Fill(words, current, width, maxWidth)) == Words(current) + words
    decreases |words|
  {
    if words == [] {
      assert WordsOf([current]) == Words(current) + WordsOf([]);
    } else {
      var w := words[0];
      var rest := words[1..];
      assert forall x :: x in rest ==> x in words;
      assert words == [w] + rest;
      var joined := current + " " + w;
      if width(joined) <= maxWidth {
        FillWords(rest, joined, width, maxWidth);
        WordsAppendWord(current, w);
      } else {
        FillWords(rest, w, width, maxWidth);
        WordsOfWord(w);
        var g := Fill(rest, w, width, maxWidth);
        assert ([current] + g)[1..] == g;
      }
    }
  }

  lemma {:induction false} WrapParagraphsWords(paragraphs: seq<string>, width: string -> int, maxWidth: int)
    ensures WordsOf(WrapParagraphs(paragraphs, width, maxWidth)) == WordsOf(paragraphs)
    decreases |paragraphs|
  {
    if paragraphs != [] {
      var n := |paragraphs|;
      var init := paragraphs[..n - 1];
      var p := paragraphs[n - 1];
      var a := WrapParagraphs(init, width, maxWidth);
      var b := Fill(Words(p), "", width, maxWidth);
      assert WrapParagraphs(paragraphs, width, maxWidth) == a + b + [""];
      WrapParagraphsWords(init, width, maxWidth);
      FillWords(Words(p), "", width, maxWidth);
      assert Words("") + Words(p) == Words(p);
      WordsOfBlock(init, p, a, b);
      assert init + [p] == paragraphs;
    }
  }

  /** A paragraph's lines and the blank separator after them hold the paragraph's words. */
  lemma WordsOfBlock(init: seq<string>, p: string, a: seq<string>, b: seq<string>)
    requires WordsOf(a) == WordsOf(init) && WordsOf(b) == Words(p)
    ensures WordsOf(a + b + [""]) == WordsOf(init + [p])
  {
    WordsOfAppend(a + b, [""]);
    WordsOfSingle("");
    WordsOfAppend(a, b);
    WordsOfAppend(init, [p]);
    WordsOfSingle(p);
  }

  /**
   * No word is lost, duplicated or reordered: splitting every wrapped line into
   * words gives the words of the text.
   */
  lemma WrappedWords(text: string, width: string -> int, maxWidth: int)
    ensures WordsOf(Wrapped(text, width, maxWidth)) == Words(text)
  {
    WrapParagraphsWords(Split(text, ParagraphBreak), width, maxWidth);
    WordsOfSplit(text, ParagraphBreak);
  }

  // ---------------------------------------------------------------------------
  // Width bound and greediness
  // ---------------------------------------------------------------------------

  /** Each emitted line is the line being built, a single word, or a joined line that was measured to fit. */
  lemma {:induction false} FillLineKinds(words: seq<string>, current: string, width: string -> int, maxWidth: int)
    ensures forall line :: line in Fill(words, current, width, maxWidth) ==>
      line == current || line in words || width(line) <= maxWidth
    decreases |words|
  {
    if words != [] {
      var joined := current + " " + words[0];
      assert forall x :: x in words[1..] ==> x in words;
      if width(joined) <= maxWidth {
        FillLineKinds(words[1..], joined, width, maxWidth);
      } else {
        FillLineKinds(words[1..], words[0], width, maxWidth);
      }
    }
  }

  lemma {:induction false} WrapParagraphsLineWidth(paragraphs: seq<string>, width: string -> int, maxWidth: int, k: nat)
    requires k < |WrapParagraphs(paragraphs, width, maxWidth)|
    ensures var line := WrapParagraphs(paragraphs, width, maxWidth)[k];
      line == "" || IsWord(line) || width(line) <= maxWidth
    decreases |paragraphs|
  {
    var n := |paragraphs|;
    var init := paragraphs[..n - 1];
    var p := paragraphs[n - 1];
    var a := WrapParagraphs(init, width, maxWidth);
    var b := Fill(Words(p), "", width, maxWidth);
    var r := a + b + [""];
    assert WrapParagraphs(paragraphs, width, maxWidth) == r;
    if k < |a| {
      WrapParagraphsLineWidth(init, width, maxWidth, k);
      assert r[k] == a[k];
    } else if k < |a| + |b| {
      FillLineKinds(Words(p), "", width, maxWidth);
      assert r[k] == b[k - |a|];
      assert b[k - |a|] in b;
    }
  }

  lemma WrapParagraphsWidth(paragraphs: seq<string>, width: string -> int, maxWidth: int)
    ensures var r := WrapParagraphs(paragraphs, width, maxWidth);
      forall k :: 0 <= k < |r| ==> r[k] == "" || IsWord(r[k]) || width(r[k]) <= maxWidth
  {
    var r := WrapParagraphs(paragraphs, width, maxWidth);
    forall k | 0 <= k < |r| ensures r[k] == "" || IsWord(r[k]) || width(r[k]) <= maxWidth {
      WrapParagraphsLineWidth(paragraphs, width, maxWidth, k);
    }
  }

  /**
   * Every wrapped line fits within `maxWidth`, unless it is empty or a single
   * word: a line wider than the limit never holds two words.
   */
  lemma WrappedWidth(text: string, width: string -> int, maxWidth: int)
    ensures var r := Wrapped(text, width, maxWidth);
      forall k :: 0 <= k < |r| ==> r[k] == "" || IsWord(r[k]) || width(r[k]) <= maxWidth
  {
    assert Wrapped(text, width, maxWidth) == WrapParagraphs(Split(text, ParagraphBreak), width, maxWidth);
    WrapParagraphsWidth(Split(text, ParagraphBreak), width, maxWidth);
  }

  /** The words of the first line emitted start with the words of the line being built. */
  lemma {:induction false} FillFirstWords(words: seq<string>, current: string, width: string -> int, maxWidth: int)
    requires forall w :: w in words ==> IsWord(w)
    ensures Words(current) <= Words(Fill(words, current, width, maxWidth)[0])
    decreases |words|
  {
    if words != [] {
      var joined := current + " " + words[0];
      if width(joined) <= maxWidth {
        assert forall x :: x in words[1..] ==> x in words;
        FillFirstWords(words[1..], joined, width, maxWidth);
        WordsAppendWord(current, words[0]);
      }
    }
  }

  /** The line `next` had to start: the first word of `next` does not fit after `prev` and a space. */
  predicate BreakForced(prev: string, next: string, width: string -> int, maxWidth: int) {
    Words(next) != [] && width(prev + " " + Words(next)[0]) > maxWidth
  }

  /**
   * A new line starts only when the next word does not fit: for every line but
   * the first, the line before it followed by a space and its own first word is
   * wider than `maxWidth`.
   */
  lemma {:induction false} FillGreedy(words: seq<string>, current: string, width: string -> int, maxWidth: int)
    requires forall w :: w in words ==> IsWord(w)
    ensures var f := Fill(words, current, width, maxWidth);
      forall i :: 0 < i < |f| ==> BreakForced(f[i - 1], f[i], width, maxWidth)
    decreases |words|
  {
    if words != [] {
      var w := words[0];
      var joined := current + " " + w;
      assert forall x :: x in words[1..] ==> x in words;
      if width(joined) <= maxWidth {
        assert Fill(words, current, width, maxWidth) == Fill(words[1..], joined, width, maxWidth);
        FillGreedy(words[1..], joined, width, maxWidth);
      } else {
        var g := Fill(words[1..], w, width, maxWidth);
        FillGreedy(words[1..], w, width, maxWidth);
        FillFirstWords(words[1..], w, width, maxWidth);
        WordsOfWord(w);
        var f := [current] + g;
        forall i | 0 < i < |f|
          ensures BreakForced(f[i - 1], f[i], width, maxWidth)
        {
          assert f[i] == g[i - 1];
          if i > 1 {
            assert f[i - 1] == g[i - 2];
          }
        }
      }
    }
  }
}
