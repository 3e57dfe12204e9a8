/**
 * The plain-text rendering of a sentence: the token words joined by single
 * spaces, after which every space immediately before one of , . : ; ! ? is
 * removed, one punctuation character at a time.
 */
module PlainText {

  /** The characters that take no space before them, in the order they are handled. */
  const TightPunctuation: string := ",.:;!?"

  /** ' '.join(ws) */
  function Join(ws: seq<string>): string {
    if |ws| == 0 then "" else if |ws| == 1 then ws[0] else ws[0] + " " + Join(ws[1..])
  }

  /** The string with every space taken out. */
  function Unspaced(s: string): string {
    if s == [] then [] else (if s[0] == ' ' then [] else [s[0]]) + Unspaced(s[1..])
  }

  /**
   * s.replace(' ' + c, c): a left-to-right scan that drops the space of each
   * non-overlapping occurrence of a space followed by `c`. Only spaces are
   * ever taken out.
   */
  function RemoveSpaceBefore(s: string, c: char): string
    decreases |s|
  {
    if |s| >= 2 && s[0] == ' ' && s[1] == c then [c] + RemoveSpaceBefore(s[2..], c)
    else if s == [] then []
    else [s[0]] + RemoveSpaceBefore(s[1..], c)
  }

  /** A replace pass only ever takes out spaces. */
  lemma {:induction false} RemoveSpaceBeforeOnlySpaces(s: string, c: char)
    requires c != ' '
    ensures Unspaced(RemoveSpaceBefore(s, c)) == Unspaced(s)
    ensures |RemoveSpaceBefore(s, c)| <= |s|
    decreases |s|
  {
    var r := RemoveSpaceBefore(s, c);
    if |s| >= 2 && s[0] == ' ' && s[1] == c {
      RemoveSpaceBeforeOnlySpaces(s[2..], c);
      assert Unspaced(s) == Unspaced(s[1..]);
      assert s[1..][1..] == s[2..];
      assert r[1..] == RemoveSpaceBefore(s[2..], c);
    } else if s != [] {
      RemoveSpaceBeforeOnlySpaces(s[1..], c);
      assert r[1..] == RemoveSpaceBefore(s[1..], c);
    }
  }

  /** `for c in tight: s = s.replace(' ' + c, c)` */
  function Tighten(s: string, tight: string): string
    decreases |tight|
  {
    if tight == [] then s
    else RemoveSpaceBefore(Tighten(s, tight[..|tight| - 1]), tight[|tight| - 1])
  }

  /** The separator that goes before word `w` when the characters in `tight` take no space. */
  function Separator(w: string, tight: string): string {
    if |w| > 0 && w[0] in tight then "" else " "
  }

  /** The later words of a sentence, each preceded by its separator. */
  function Spaced(ws: seq<string>, tight: string): string {
    if ws == [] then "" else Separator(ws[0], tight) + ws[0] + Spaced(ws[1..], tight)
  }

  /**
   * Reference rendering: the words in order, a single space between two
   * words unless the second starts with a character of `tight`.
   */
  function Glue(ws: seq<string>, tight: string): string {
    if ws == [] then "" else ws[0] + Spaced(ws[1..], tight)
  }

  /** A token as the parser produces it: non-empty, without spaces. */
  predicate PlainWord(w: string) {
    |w| > 0 && ' ' !in w
  }

  lemma {:induction false} JoinIsSpaced(ws: seq<string>)
    requires |ws| > 0
    ensures Join(ws) == ws[0] + Spaced(ws[1..], "")
    decreases |ws|
  {
    if |ws| > 1 {
      JoinIsSpaced(ws[1..]);
      assert ws[1..][1..] == ws[2..];
    }
  }

  lemma {:induction false} RemoveSpaceBeforeNoSpace(s: string, c: char)
    requires c != ' ' && ' ' !in s
    ensures RemoveSpaceBefore(s, c) == s
    decreases |s|
  {
    if s != [] {
      RemoveSpaceBeforeNoSpace(s[1..], c);
    }
  }

  /** The scan restarts cleanly at a boundary not preceded by a space. */
  lemma {:induction false} RemoveSpaceBeforeConcat(a: string, b: string, c: char)
    requires c != ' '
    requires |a| == 0 || a[|a| - 1] != ' '
    ensures RemoveSpaceBefore(a + b, c) == RemoveSpaceBefore(a, c) + RemoveSpaceBefore(b, c)
    decreases |a|
  {
    if |a| == 0 {
      assert a + b == b;
    } else if |a| >= 2 && a[0] == ' ' && a[1] == c {
      RemoveSpaceBeforeConcat(a[2..], b, c);
      DropPairAcrossConcat(a, b, c);
    } else {
      RemoveSpaceBeforeConcat(a[1..], b, c);
      KeepFirstAcrossConcat(a, b, c);
    }
  }

  lemma DropPairAcrossConcat(a: string, b: string, c: char)
    requires c != ' '
    requires |a| >= 2 && a[0] == ' ' && a[1] == c
    requires RemoveSpaceBefore(a[2..] + b, c) == RemoveSpaceBefore(a[2..], c) + RemoveSpaceBefore(b, c)
    ensures RemoveSpaceBefore(a + b, c) == RemoveSpaceBefore(a, c) + RemoveSpaceBefore(b, c)
  {
    var s := a + b;
    SplitConcat(a, b, 2);
    UnfoldDropPair(s, c);
    UnfoldDropPair(a, c);
    Associative([c], RemoveSpaceBefore(a[2..], c), RemoveSpaceBefore(b, c));
  }

  lemma KeepFirstAcrossConcat(a: string, b: string, c: char)
    requires c != ' '
    requires |a| >= 1 && a[|a| - 1] != ' '
    requires !(|a| >= 2 && a[0] == ' ' && a[1] == c)
    requires RemoveSpaceBefore(a[1..] + b, c) == RemoveSpaceBefore(a[1..], c) + RemoveSpaceBefore(b, c)
    ensures RemoveSpaceBefore(a + b, c) == RemoveSpaceBefore(a, c) + RemoveSpaceBefore(b, c)
  {
    var s := a + b;
    SplitConcat(a, b, 1);
    assert |a| >= 2 ==> s[1] == a[1];
    UnfoldKeepFirst(s, c);
    UnfoldKeepFirst(a, c);
    Associative([a[0]], RemoveSpaceBefore(a[1..], c), RemoveSpaceBefore(b, c));
  }

  /** Solver aid: indexing and slicing a concatenation within its left part. */
  lemma SplitConcat(a: string, b: string, k: nat)
    requires k <= |a|
    ensures (a + b)[k..] == a[k..] + b
    ensures forall i :: 0 <= i < k ==> (a + b)[i] == a[i]
  {
  }

  /** Solver aid: string concatenation is associative. */
  lemma Associative(x: string, y: string, z: string)
    ensures x + (y + z) == (x + y) + z
  {
  }

  lemma UnfoldDropPair(s: string, c: char)
    requires c != ' '
    requires |s| >= 2 && s[0] == ' ' && s[1] == c
    ensures RemoveSpaceBefore(s, c) == [c] + RemoveSpaceBefore(s[2..], c)
  {
  }

  lemma UnfoldKeepFirst(s: string, c: char)
    requires c != ' '
    requires |s| >= 1 && !(|s| >= 2 && s[0] == ' ' && s[1] == c)
    ensures RemoveSpaceBefore(s, c) == [s[0]] + RemoveSpaceBefore(s[1..], c)
  {
  }

  /** One replace pass drops exactly the separators before the words that start with `c`. */
  lemma {:induction false} RemoveSpaceBeforeSpaced(ws: seq<string>, tight: string, c: char)
    requires c != ' '
    requires forall k :: 0 <= k < |ws| ==> PlainWord(ws[k])
    ensures RemoveSpaceBefore(Spaced(ws, tight), c) == Spaced(ws, tight + [c])
    decreases |ws|
  {
    if ws != [] {
      var w := ws[0];
      var piece := Separator(w, tight) + w;
      assert Spaced(ws, tight) == piece + Spaced(ws[1..], tight);
      RemoveSpaceBeforeConcat(piece, Spaced(ws[1..], tight), c);
      RemoveSpaceBeforeSpaced(ws[1..], tight, c);
      assert PlainWord(w);
      RemoveSpaceBeforeNoSpace(w, c);
      if Separator(w, tight) == "" {
        assert w[0] in tight + [c];
        assert piece == w;
      } else if w[0] == c {
        assert piece[0] == ' ' && piece[1] == c;
        assert piece[2..] == w[1..];
        assert ' ' !in w[1..];
        RemoveSpaceBeforeNoSpace(w[1..], c);
        assert [c] + w[1..] == w;
        assert RemoveSpaceBefore(piece, c) == w;
        assert w[0] in tight + [c];
      } else {
        assert piece[1] == w[0];
        assert piece[1..] == w;
        assert RemoveSpaceBefore(piece, c) == " " + w;
        assert w[0] !in tight + [c];
      }
      assert RemoveSpaceBefore(piece, c) == Separator(w, tight + [c]) + w;
    }
  }

  /**
   * For words as the parser produces them, the rendering puts exactly one
   * space between two words except before a word starting with a character
   * of `tight` (in the view, , . : ; ! ?).
   */
  lemma PlainTextSpacing(ws: seq<string>, tight: string)
    requires ' ' !in tight
    requires forall k :: 0 <= k < |ws| ==> PlainWord(ws[k])
    ensures Tighten(Join(ws), tight) == Glue(ws, tight)
  {
    if ws != [] {
      JoinIsSpaced(ws);
      TightenSpaced(ws, tight);
    } else {
      TightenEmpty(tight);
    }
  }

  lemma {:induction false} TightenEmpty(tight: string)
    requires ' ' !in tight
    ensures Tighten("", tight) == ""
    decreases |tight|
  {
    if tight != [] {
      TightenEmpty(tight[..|tight| - 1]);
    }
  }

  /** Each pass of the loop moves one more character into the set that takes no space. */
  lemma {:induction false} TightenSpaced(ws: seq<string>, tight: string)
    requires ' ' !in tight
    requires |ws| > 0 && forall k :: 0 <= k < |ws| ==> PlainWord(ws[k])
    ensures Tighten(ws[0] + Spaced(ws[1..], ""), tight) == ws[0] + Spaced(ws[1..], tight)
    decreases |tight|
  {
    if tight != [] {
      var init := tight[..|tight| - 1];
      var c := tight[|tight| - 1];
      assert ' ' !in init;
      TightenSpaced(ws, init);
      assert PlainWord(ws[0]);
      RemoveSpaceBeforeConcat(ws[0], Spaced(ws[1..], init), c);
      RemoveSpaceBeforeNoSpace(ws[0], c);
      RemoveSpaceBeforeSpaced(ws[1..], init, c);
      assert init + [c] == tight;
    }
  }

  /** The words of the sample client sentence render as "Hello, my name is Melroy". */
  lemma HelloExample(ws: seq<string>, tight: string)
    requires ws == ["Hello", ",", "my", "name", "is", "Melroy"]
    requires tight == TightPunctuation
    ensures Tighten(Join(ws), tight) == "Hello, my name is Melroy"
  {
    HelloWordsArePlain(ws);
    PlainTextSpacing(ws, tight);
    HelloSpaced(ws[1..], tight);
    HelloGlued(ws, tight, "," + " my" + " name" + " is" + " Melroy");
  }

  lemma HelloWordsArePlain(ws: seq<string>)
    requires ws == ["Hello", ",", "my", "name", "is", "Melroy"]
    ensures forall k :: 0 <= k < |ws| ==> PlainWord(ws[k])
  {
    assert PlainWord("Hello") && PlainWord(",") && PlainWord("my");
    assert PlainWord("name") && PlainWord("is") && PlainWord("Melroy");
  }

  lemma HelloGlued(ws: seq<string>, tight: string, rest: string)
    requires ws == ["Hello", ",", "my", "name", "is", "Melroy"]
    requires Spaced(ws[1..], tight) == rest
    requires rest == "," + " my" + " name" + " is" + " Melroy"
    ensures Glue(ws, tight) == "Hello, my name is Melroy"
  {
    assert "Hello" + rest == "Hello, my name is Melroy";
  }

  lemma HelloSpaced(ws: seq<string>, tight: string)
    requires ws == [",", "my", "name", "is", "Melroy"]
    requires tight == TightPunctuation
    ensures Spaced(ws, tight) == "," + " my" + " name" + " is" + " Melroy"
  {
    HelloSpacedTail(ws[2..], tight);
    assert ws[1..][1..] == ws[2..];
    SpacedStep(ws[1..], tight, " my" + " name" + " is" + " Melroy");
    SpacedStep(ws, tight, "," + " my" + " name" + " is" + " Melroy");
  }

  lemma HelloSpacedTail(ws: seq<string>, tight: string)
    requires ws == ["name", "is", "Melroy"]
    requires tight == TightPunctuation
    ensures Spaced(ws, tight) == " name" + " is" + " Melroy"
  {
    var t4: seq<string> := ["Melroy"];
    var t3 := ["is"] + t4;
    assert ws == ["name"] + t3;
    SpacedStep(t4, tight, " Melroy");
    SpacedStep(t3, tight, " is" + " Melroy");
    SpacedStep(ws, tight, " name" + " is" + " Melroy");
  }

  lemma SpacedStep(ws: seq<string>, tight: string, expected: string)
    requires |ws| > 0
    requires expected == Separator(ws[0], tight) + ws[0] + Spaced(ws[1..], tight)
    ensures Spaced(ws, tight) == expected
  {
  }
}
