/**
 * The pieces of Go's `strings` package that the failure-message classifier
 * relies on: `Contains`, the first element of `Split(s, ",")`, `FieldsFunc`
 * and `Join`. Strings are sequences of runes.
 */
module Text {

  /** `p` occurs in `s` starting at index `k`. */
  predicate HasAt(s: string, p: string, k: nat)
  {
    k + |p| <= |s| && s[k..k + |p|] == p
  }

  /** One differing character rules out an occurrence. */
  lemma MismatchBreaksOccurrence(s: string, p: string, k: nat, i: nat)
    requires i < |p| && k + i < |s| && s[k + i] != p[i]
    ensures !HasAt(s, p, k)
  {
  }

  /** Inside a window of `s` that equals `t`, occurrences in `s` are occurrences in `t`. */
  lemma OccurrenceInWindow(s: string, t: string, m: nat, p: string, j: nat)
    requires m + |t| <= |s| && s[m..m + |t|] == t && j + |p| <= |t|
    ensures HasAt(s, p, m + j) <==> HasAt(t, p, j)
  {
    var u, w := s[m + j..m + j + |p|], t[j..j + |p|];
    forall i | 0 <= i < |p| ensures u[i] == w[i] {
      assert s[m..m + |t|][j + i] == s[m + j + i];
    }
    assert u == w;
  }

  /** A character of `p` that `s` lacks rules out every occurrence of `p`. */
  lemma AbsentCharRulesOut(s: string, p: string, i: nat)
    requires i < |p| && p[i] !in s
    ensures !Contains(s, p)
  {
  }

  /** No character of `s` satisfies `f`. */
  predicate NoneSatisfy(s: string, f: char -> bool)
  {
    forall i :: 0 <= i < |s| ==> !f(s[i])
  }

  function ContainsFrom(s: string, p: string, k: nat): (b: bool)
    requires k <= |s|
    ensures b <==> exists j: nat :: k <= j && HasAt(s, p, j)
    decreases |s| - k
  {
    HasAt(s, p, k) || (k < |s| && ContainsFrom(s, p, k + 1))
  }

  /** strings.Contains: `p` occurs somewhere in `s`. */
  function Contains(s: string, p: string): (b: bool)
    ensures b <==> exists j: nat :: HasAt(s, p, j)
  {
    ContainsFrom(s, p, 0)
  }

  /** The longest prefix of `s` none of whose characters satisfies `stop`. */
  function Span(s: string, stop: char -> bool): (r: string)
    ensures r <= s
    ensures NoneSatisfy(r, stop)
    ensures r == s || stop(s[|r|])
  {
    if s == [] || stop(s[0]) then [] else [s[0]] + Span(s[1..], stop)
  }

  predicate IsComma(c: char)
  {
    c == ','
  }

  /** strings.Split(s, ",")[0]: everything before the first comma. */
  function FirstSegment(s: string): (r: string)
    ensures r <= s
    ensures ',' !in r
    ensures r == s || s[|r|] == ','
  {
    Span(s, IsComma)
  }

  /**
   * strings.FieldsFunc: the maximal runs of characters that do not satisfy
   * `f`, in order.
   */
  function Fields(s: string, f: char -> bool): (r: seq<string>)
    ensures forall i :: 0 <= i < |r| ==> r[i] != [] && NoneSatisfy(r[i], f)
    decreases |s|
  {
    if s == [] then []
    else if f(s[0]) then Fields(s[1..], f)
    else
      var w := Span(s, f);
      [w] + Fields(s[|w|..], f)
  }

  /**
   * strings.Join: the words in order with `sep` between neighbours; the
   * result starts with the first word. `JoinSnoc` says what one more word
   * adds, and `JoinEndsWithLast` that the result ends with the last word.
   */
  function Join(ws: seq<string>, sep: string): (r: string)
    ensures ws == [] ==> r == []
    ensures |ws| == 1 ==> r == ws[0]
    ensures ws != [] ==> ws[0] <= r
  {
    if ws == [] then []
    else if |ws| == 1 then ws[0]
    else ws[0] + sep + Join(ws[1..], sep)
  }

  /** Appending a word to a non-empty list appends one glue and the word. */
  lemma {:induction false} JoinSnoc(ws: seq<string>, w: string, sep: string)
    requires ws != []
    ensures Join(ws + [w], sep) == Join(ws, sep) + sep + w
    decreases |ws|
  {
    var vs := ws + [w];
    assert |vs| > 1 && vs[0] == ws[0];
    if |ws| == 1 {
      assert vs[1..] == [w];
      assert Join(vs, sep) == ws[0] + sep + w;
    } else {
      var t := Join(ws[1..], sep);
      assert vs[1..] == ws[1..] + [w];
      JoinSnoc(ws[1..], w, sep);
      assert Join(vs, sep) == ws[0] + sep + (t + sep + w);
      assert Join(ws, sep) == ws[0] + sep + t;
    }
  }

  /** A join ends with its last word. */
  lemma JoinEndsWithLast(ws: seq<string>, sep: string)
    requires ws != []
    ensures var r, last := Join(ws, sep), ws[|ws| - 1];
      |last| <= |r| && r[|r| - |last|..] == last
  {
    if |ws| > 1 {
      var init := ws[..|ws| - 1];
      assert ws == init + [ws[|ws| - 1]];
      JoinSnoc(init, ws[|ws| - 1], sep);
    }
  }

  /** With an empty glue, joining a word in front is concatenation. */
  lemma {:induction false} JoinInFront(w: string, ws: seq<string>)
    ensures Join([w] + ws, "") == w + Join(ws, "")
  {
    var vs := [w] + ws;
    if ws == [] {
      assert vs == [w];
      assert w + [] == w;
    } else {
      assert |vs| > 1 && vs[0] == w && vs[1..] == ws;
      assert Join(vs, "") == w + "" + Join(ws, "");
      assert w + "" == w;
    }
  }

  /** The length of `strings.Join`: the words plus one glue per neighbouring pair. */
  lemma {:induction false} JoinLength(ws: seq<string>, sep: string)
    requires ws != []
    ensures |Join(ws, sep)| == TotalLength(ws) + (|ws| - 1) * |sep|
    decreases |ws|
  {
    if |ws| > 1 {
      JoinLength(ws[1..], sep);
    }
  }

  /** The sum of the lengths of the strings in `ws`. */
  function TotalLength(ws: seq<string>): nat
  {
    if ws == [] then 0 else |ws[0]| + TotalLength(ws[1..])
  }

  /** `s` with every character that satisfies `f` deleted. */
  function Remove(s: string, f: char -> bool): string
  {
    if s == [] then [] else (if f(s[0]) then [] else [s[0]]) + Remove(s[1..], f)
  }

  lemma {:induction false} RemoveAppend(a: string, b: string, f: char -> bool)
    ensures Remove(a + b, f) == Remove(a, f) + Remove(b, f)
  {
    if a == [] {
      assert a + b == b;
    } else {
      assert (a + b)[1..] == a[1..] + b;
      RemoveAppend(a[1..], b, f);
    }
  }

  lemma {:induction false} RemoveNothing(w: string, f: char -> bool)
    requires NoneSatisfy(w, f)
    ensures Remove(w, f) == w
  {
    if w != [] {
      RemoveNothing(w[1..], f);
    }
  }

  lemma {:induction false} RemoveAll(s: string, g: char -> bool)
    requires forall i :: 0 <= i < |s| ==> g(s[i])
    ensures Remove(s, g) == []
  {
    if s != [] {
      RemoveAll(s[1..], g);
    }
  }

  /** Deleting the characters of a glue made of them forgets the glue. */
  lemma {:induction false} RemoveJoinGlue(ws: seq<string>, sep: string, g: char -> bool)
    requires forall i :: 0 <= i < |sep| ==> g(sep[i])
    ensures Remove(Join(ws, sep), g) == Remove(Join(ws, ""), g)
    decreases |ws|
  {
    if |ws| > 1 {
      var rest, bare := Join(ws[1..], sep), Join(ws[1..], "");
      calc {
        Remove(Join(ws, sep), g);
        Remove(ws[0] + sep + rest, g);
        { RemoveAppend(ws[0] + sep, rest, g); RemoveAppend(ws[0], sep, g); }
        Remove(ws[0], g) + Remove(sep, g) + Remove(rest, g);
        { RemoveAll(sep, g); RemoveJoinGlue(ws[1..], sep, g); }
        Remove(ws[0], g) + Remove(bare, g);
        { RemoveAppend(ws[0], bare, g); }
        Remove(ws[0] + bare, g);
        { assert ws[0] + "" + bare == ws[0] + bare; }
        Remove(Join(ws, ""), g);
      }
    }
  }

  /** Deleting `f` and then a wider `g` is deleting `g`. */
  lemma {:induction false} RemoveTwice(s: string, f: char -> bool, g: char -> bool)
    requires forall i :: 0 <= i < |s| ==> f(s[i]) ==> g(s[i])
    ensures Remove(Remove(s, f), g) == Remove(s, g)
  {
    if s != [] {
      var head: string := if f(s[0]) then [] else [s[0]];
      RemoveTwice(s[1..], f, g);
      RemoveAppend(head, Remove(s[1..], f), g);
      if head != [] {
        assert head[1..] == [];
      }
    }
  }

  /** Gluing the fields back together gives `s` without its separators. */
  lemma {:induction false} FieldsConcat(s: string, f: char -> bool)
    ensures Join(Fields(s, f), "") == Remove(s, f)
    decreases |s|
  {
    if s == [] {
    } else if f(s[0]) {
      FieldsConcat(s[1..], f);
    } else {
      var w := Span(s, f);
      assert s == w + s[|w|..];
      FieldsConcat(s[|w|..], f);
      JoinInFront(w, Fields(s[|w|..], f));
      RemoveAppend(w, s[|w|..], f);
      RemoveNothing(w, f);
    }
  }

  /** A run of non-separators is cut short by the first separator. */
  lemma {:induction false} SpanStopsAtSeparator(a: string, c: char, b: string, f: char -> bool)
    requires f(c)
    ensures Span(a + [c] + b, f) == Span(a, f)
  {
    if a == [] {
      assert (a + [c] + b)[0] == c;
    } else {
      assert (a + [c] + b)[0] == a[0];
      assert (a + [c] + b)[1..] == a[1..] + [c] + b;
      SpanStopsAtSeparator(a[1..], c, b, f);
    }
  }

  /** A separator splits the field list in two. */
  lemma {:induction false} FieldsSplitAtSeparator(a: string, c: char, b: string, f: char -> bool)
    requires f(c)
    ensures Fields(a + [c] + b, f) == Fields(a, f) + Fields(b, f)
    decreases |a|
  {
    var s := a + [c] + b;
    if a == [] {
      assert s[0] == c && s[1..] == b;
    } else if f(a[0]) {
      assert s[0] == a[0] && s[1..] == a[1..] + [c] + b;
      FieldsSplitAtSeparator(a[1..], c, b, f);
    } else {
      assert s[0] == a[0];
      SpanStopsAtSeparator(a, c, b, f);
      var w := Span(a, f);
      assert s[|w|..] == a[|w|..] + [c] + b;
      FieldsSplitAtSeparator(a[|w|..], c, b, f);
    }
  }

  /** Leading separators contribute no field. */
  lemma {:induction false} SeparatorsSkipped(seps: string, b: string, f: char -> bool)
    requires forall i :: 0 <= i < |seps| ==> f(seps[i])
    ensures Fields(seps + b, f) == Fields(b, f)
  {
    if seps == [] {
      assert seps + b == b;
    } else {
      assert seps + b == [] + [seps[0]] + (seps[1..] + b);
      FieldsSplitAtSeparator([], seps[0], seps[1..] + b, f);
      assert Fields([], f) == [];
      SeparatorsSkipped(seps[1..], b, f);
    }
  }

  /** A character absent from `s` is absent from every field of `s`. */
  lemma {:induction false} FieldsKeepAbsence(s: string, f: char -> bool, g: char -> bool)
    requires NoneSatisfy(s, g)
    ensures forall i :: 0 <= i < |Fields(s, f)| ==> NoneSatisfy(Fields(s, f)[i], g)
    decreases |s|
  {
    if s == [] {
    } else if f(s[0]) {
      FieldsKeepAbsence(s[1..], f, g);
    } else {
      var w := Span(s, f);
      assert forall j :: 0 <= j < |w| ==> w[j] == s[j];
      assert forall j :: 0 <= j < |s| - |w| ==> s[|w|..][j] == s[|w| + j];
      FieldsKeepAbsence(s[|w|..], f, g);
    }
  }

  lemma SpanOfWord(w: string, f: char -> bool)
    requires NoneSatisfy(w, f)
    ensures Span(w, f) == w
  {
  }

  /** A non-empty run without separators is a single field. */
  lemma FieldsOfWord(w: string, f: char -> bool)
    requires w != [] && NoneSatisfy(w, f)
    ensures Fields(w, f) == [w]
  {
    SpanOfWord(w, f);
  }

  /** Joining separator-free strings with a separator-free glue adds no separator. */
  lemma {:induction false} JoinNoneSatisfy(ws: seq<string>, sep: string, f: char -> bool)
    requires forall i :: 0 <= i < |ws| ==> NoneSatisfy(ws[i], f)
    requires NoneSatisfy(sep, f)
    ensures NoneSatisfy(Join(ws, sep), f)
  {
    if |ws| > 1 {
      JoinNoneSatisfy(ws[1..], sep, f);
      var t := Join(ws[1..], sep);
      forall i | 0 <= i < |ws[0] + sep + t| ensures !f((ws[0] + sep + t)[i]) {
        if i < |ws[0]| {
        } else if i < |ws[0]| + |sep| {
          assert (ws[0] + sep + t)[i] == sep[i - |ws[0]|];
        } else {
          assert (ws[0] + sep + t)[i] == t[i - |ws[0]| - |sep|];
        }
      }
    }
  }
}
