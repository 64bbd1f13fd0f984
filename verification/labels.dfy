/** The display name of a category (`formatCategoryName`): the reserved
    literals "all" and "All" show as "All"; any other name is split on
    hyphens, each piece gets its first character upper-cased, and the pieces
    are joined with spaces. */
module Labels {
  import opened Ascii

  const Hyphen: char := '-'
  const Space: char := ' '
  const AllLabel: string := "All"

  /** Number of occurrences of `x` in `s`. */
  function Occurrences(s: string, x: char): nat
  {
    if |s| == 0 then 0 else (if s[0] == x then 1 else 0) + Occurrences(s[1..], x)
  }

  /** `s.split(sep)` for a one-character separator: there is always at least
      one piece (the empty string splits into `[""]`), one more piece than
      there are separators, and no piece contains the separator. */
  function Split(s: string, sep: char): (parts: seq<string>)
    ensures |parts| == Occurrences(s, sep) + 1
    ensures forall i :: 0 <= i < |parts| ==> sep !in parts[i]
    decreases |s|
  {
    if |s| == 0 then [""]
    else
      var rest := Split(s[1..], sep);
      if s[0] == sep then [""] + rest
      else [[s[0]] + rest[0]] + rest[1..]
  }

  /** Occurrences add up over a concatenation. */
  lemma {:induction false} OccurrencesAppend(a: string, b: string, x: char)
    ensures Occurrences(a + b, x) == Occurrences(a, x) + Occurrences(b, x)
    decreases |a|
  {
    if |a| == 0 {
      assert a + b == b;
    } else {
      assert (a + b)[0] == a[0];
      assert (a + b)[1..] == a[1..] + b;
      OccurrencesAppend(a[1..], b, x);
    }
  }

  /** A character that does not appear occurs zero times. */
  lemma {:induction false} OccurrencesAbsent(s: string, x: char)
    ensures x !in s ==> Occurrences(s, x) == 0
    decreases |s|
  {
    if |s| > 0 {
      OccurrencesAbsent(s[1..], x);
    }
  }

  /** `parts.join(sep)` for a one-character separator: the result starts
      with the first piece, and when no piece contains the separator it holds
      exactly one separator fewer than there are pieces (`SplitJoin` recovers
      the pieces themselves). */
  function Join(parts: seq<string>, sep: char): (r: string)
    ensures |parts| >= 1 ==> |parts[0]| <= |r| && r[..|parts[0]|] == parts[0]
    ensures (forall i :: 0 <= i < |parts| ==> sep !in parts[i]) ==>
              Occurrences(r, sep) == if |parts| == 0 then 0 else |parts| - 1
    decreases |parts|
  {
    if |parts| == 0 then ""
    else if |parts| == 1 then OccurrencesAbsent(parts[0], sep); parts[0]
    else
      var rest := Join(parts[1..], sep);
      OccurrencesAbsent(parts[0], sep);
      OccurrencesAppend(parts[0], [sep], sep);
      OccurrencesAppend(parts[0] + [sep], rest, sep);
      assert (forall i :: 0 <= i < |parts| ==> sep !in parts[i]) ==>
               (forall i :: 0 <= i < |parts[1..]| ==> sep !in parts[1..][i]);
      parts[0] + [sep] + rest
  }

  /** `word.charAt(0).toUpperCase() + word.slice(1)`; `charAt(0)` of the
      empty word is the empty string. The word keeps its length and only its
      first character may change. */
  function CapitalizeWord(w: string): (r: string)
    ensures |r| == |w|
    ensures |w| > 0 ==> r[0] == ToUpper(w[0])
    ensures forall i :: 0 < i < |w| ==> r[i] == w[i]
  {
    if |w| == 0 then "" else [ToUpper(w[0])] + w[1..]
  }

  /** Capitalizing an already capitalized word changes nothing. */
  lemma CapitalizeWordIdempotent(w: string)
    ensures CapitalizeWord(CapitalizeWord(w)) == CapitalizeWord(w)
  {
    if |w| > 0 {
      ToUpperIdempotent(w[0]);
    }
  }

  /** `words.map(...)` with `CapitalizeWord`. */
  function CapitalizeEach(ws: seq<string>): (r: seq<string>)
    ensures |r| == |ws|
    ensures forall i :: 0 <= i < |ws| ==> r[i] == CapitalizeWord(ws[i])
  {
    if |ws| == 0 then [] else [CapitalizeWord(ws[0])] + CapitalizeEach(ws[1..])
  }

  predicate IsReserved(category: string)
  {
    category == "All" || category == "all"
  }

  /** `formatCategoryName(category)`. The reserved literals give "All";
      any other name gives a label of the same length formed character by
      character: hyphens become spaces, the first character of each segment
      is ASCII upper-cased, and the rest is kept. */
  function FormatCategoryName(category: string): (r: string)
    ensures IsReserved(category) ==> r == AllLabel
    ensures !IsReserved(category) ==> |r| == |category|
    ensures !IsReserved(category) ==> forall i :: 0 <= i < |category| ==> r[i] == LabelChar(category, i)
  {
    if IsReserved(category) then AllLabel
    else
      RelabelIsSplitMapJoin(category);
      JoinOfCapitalized(Split(category, Hyphen));
      RelabelChars(category, true);
      Join(CapitalizeEach(Split(category, Hyphen)), Space)
  }

  /** What the general rule does to character `i` of a category name: a
      hyphen becomes a space, the first character of every hyphen-separated
      segment is upper-cased, and every other character is kept. */
  function LabelChar(s: string, i: nat): char
    requires i < |s|
  {
    if s[i] == Hyphen then Space
    else if i == 0 || s[i - 1] == Hyphen then ToUpper(s[i])
    else s[i]
  }

  /** Splitting and joining again with the same separator gives back the
      original string. */
  lemma {:induction false} JoinSplit(s: string, sep: char)
    ensures Join(Split(s, sep), sep) == s
    decreases |s|
  {
    if |s| > 0 {
      var rest := Split(s[1..], sep);
      JoinSplit(s[1..], sep);
      if s[0] == sep {
        assert Split(s, sep) == [""] + rest;
      } else {
        var parts := Split(s, sep);
        assert parts == [[s[0]] + rest[0]] + rest[1..];
        if |rest| == 1 {
          assert Join(rest, sep) == rest[0];
        } else {
          assert parts[1..] == rest[1..];
          assert Join(rest, sep) == rest[0] + [sep] + Join(rest[1..], sep);
        }
      }
      assert s == [s[0]] + s[1..];
    }
  }

  /** Splitting a string with no separator in it yields the string alone. */
  lemma {:induction false} SplitWithoutSeparator(s: string, sep: char)
    requires sep !in s
    ensures Split(s, sep) == [s]
    decreases |s|
  {
    if |s| > 0 {
      assert sep !in s[1..];
      SplitWithoutSeparator(s[1..], sep);
      assert s == [s[0]] + s[1..];
    }
  }

  /** A separator-free head followed by a separator splits off as one piece. */
  lemma {:induction false} SplitAfterHead(p: string, sep: char, t: string)
    requires sep !in p
    ensures Split(p + [sep] + t, sep) == [p] + Split(t, sep)
    decreases |p|
  {
    if |p| == 0 {
      assert p + [sep] + t == [sep] + t;
      assert ([sep] + t)[1..] == t;
    } else {
      var s := p + [sep] + t;
      assert s[1..] == p[1..] + [sep] + t;
      assert sep !in p[1..];
      SplitAfterHead(p[1..], sep, t);
      assert [p[0]] + p[1..] == p;
    }
  }

  /** Joining pieces that contain no separator and splitting again gives the
      pieces back: `Split` and `Join` are inverse to each other. */
  lemma {:induction false} SplitJoin(parts: seq<string>, sep: char)
    requires |parts| >= 1
    requires forall i :: 0 <= i < |parts| ==> sep !in parts[i]
    ensures Split(Join(parts, sep), sep) == parts
    decreases |parts|
  {
    if |parts| == 1 {
      SplitWithoutSeparator(parts[0], sep);
    } else {
      var tail := parts[1..];
      assert forall i :: 0 <= i < |tail| ==> sep !in tail[i] by {
        forall i | 0 <= i < |tail| ensures sep !in tail[i] {
          assert tail[i] == parts[i + 1];
        }
      }
      SplitJoin(tail, sep);
      SplitAfterHead(parts[0], sep, Join(tail, sep));
      assert [parts[0]] + tail == parts;
    }
  }

  /** The general rule written as one left-to-right pass; `atStart` says
      whether the next character begins a segment. */
  function Relabel(s: string, atStart: bool): string
  {
    if |s| == 0 then ""
    else if s[0] == Hyphen then [Space] + Relabel(s[1..], true)
    else [if atStart then ToUpper(s[0]) else s[0]] + Relabel(s[1..], false)
  }

  /** The text a list of segments contributes after its first one. */
  function Tail(ws: seq<string>): string
  {
    if |ws| == 0 then "" else [Space] + Join(CapitalizeEach(ws), Space)
  }

  /** The pass and the split/capitalize/join pipeline agree: the pass
      produces the first segment (capitalized or not, as `atStart` says)
      followed by the rest of the joined label. */
  lemma {:induction false} RelabelIsSplitMapJoin(s: string)
    ensures var p := Split(s, Hyphen);
            && Relabel(s, true) == CapitalizeWord(p[0]) + Tail(p[1..])
            && Relabel(s, false) == p[0] + Tail(p[1..])
    decreases |s|
  {
    if |s| > 0 {
      RelabelIsSplitMapJoin(s[1..]);
      if s[0] == Hyphen {
        RelabelHyphenStep(s);
      } else {
        var q := Split(s[1..], Hyphen);
        RelabelLetterStep(s, Tail(q[1..]));
      }
    }
  }

  lemma RelabelHyphenStep(s: string)
    requires |s| > 0 && s[0] == Hyphen
    requires var q := Split(s[1..], Hyphen);
             Relabel(s[1..], true) == CapitalizeWord(q[0]) + Tail(q[1..])
    ensures var p := Split(s, Hyphen);
            && Relabel(s, true) == CapitalizeWord(p[0]) + Tail(p[1..])
            && Relabel(s, false) == p[0] + Tail(p[1..])
  {
    var q := Split(s[1..], Hyphen);
    var p := Split(s, Hyphen);
    assert p == [""] + q;
    assert p[1..] == q;
    JoinOfCapitalized(q);
    assert Tail(q) == [Space] + Relabel(s[1..], true);
  }

  /** A non-hyphen first character joins the first segment; `rest` stands
      for whatever the remaining segments contribute. */
  lemma RelabelLetterStep(s: string, rest: string)
    requires |s| > 0 && s[0] != Hyphen
    requires Relabel(s[1..], false) == Split(s[1..], Hyphen)[0] + rest
    ensures Split(s, Hyphen)[1..] == Split(s[1..], Hyphen)[1..]
    ensures Relabel(s, true) == CapitalizeWord(Split(s, Hyphen)[0]) + rest
    ensures Relabel(s, false) == Split(s, Hyphen)[0] + rest
  {
    var q := Split(s[1..], Hyphen);
    var p := Split(s, Hyphen);
    assert p == [[s[0]] + q[0]] + q[1..];
    var w := [s[0]] + q[0];
    assert p[0] == w && w[0] == s[0] && w[1..] == q[0];
    assert CapitalizeWord(p[0]) == [ToUpper(s[0])] + q[0];
    assert Relabel(s, true) == [ToUpper(s[0])] + Relabel(s[1..], false);
    ConsAssoc(ToUpper(s[0]), q[0], rest);
    assert Relabel(s, false) == [s[0]] + Relabel(s[1..], false);
    ConsAssoc(s[0], q[0], rest);
  }

  lemma ConsAssoc(x: char, a: string, b: string)
    ensures [x] + (a + b) == ([x] + a) + b
  {
  }

  lemma JoinOfCapitalized(ws: seq<string>)
    requires |ws| >= 1
    ensures Join(CapitalizeEach(ws), Space) == CapitalizeWord(ws[0]) + Tail(ws[1..])
  {
    var cs := CapitalizeEach(ws);
    if |ws| > 1 {
      var rest := CapitalizeEach(ws[1..]);
      assert cs == [CapitalizeWord(ws[0])] + rest;
      assert cs[1..] == rest;
      var j := Join(rest, Space);
      assert Join(cs, Space) == cs[0] + [Space] + j;
      assert Tail(ws[1..]) == [Space] + j;
      AppendAssoc(cs[0], [Space], j);
    } else {
      assert ws[1..] == [];
    }
  }

  lemma AppendAssoc(a: string, b: string, c: string)
    ensures a + b + c == a + (b + c)
  {
  }

  lemma {:induction false} RelabelChars(s: string, atStart: bool)
    ensures |Relabel(s, atStart)| == |s|
    ensures forall i :: 0 < i < |s| ==> Relabel(s, atStart)[i] == LabelChar(s, i)
    ensures |s| > 0 ==>
              Relabel(s, atStart)[0] == (if s[0] == Hyphen then Space else if atStart then ToUpper(s[0]) else s[0])
    decreases |s|
  {
    if |s| > 0 {
      var next := s[0] == Hyphen;
      RelabelChars(s[1..], next);
      var r := Relabel(s, atStart);
      var t := s[1..];
      forall i | 0 < i < |s| ensures r[i] == LabelChar(s, i) {
        assert r[i] == Relabel(t, next)[i - 1];
        if i > 1 {
          assert LabelChar(t, i - 1) == LabelChar(s, i);
        }
      }
    }
  }

  /** The label is "All" exactly for the two reserved literals: no other
      category name, however cased, displays as "All". */
  lemma {:induction false} FormatIsAllIff(category: string)
    ensures FormatCategoryName(category) == AllLabel <==> IsReserved(category)
  {
    if !IsReserved(category) {
      var r := FormatCategoryName(category);
      if |category| == 3 {
        ToUpperIsA(category[0]);
        assert r[0] == LabelChar(category, 0);
        assert r[1] == LabelChar(category, 1);
        assert r[2] == LabelChar(category, 2);
      }
    }
  }

  /** The reserved branch only short-cuts the general rule: for "all" and
      "All" the general rule would also produce "All". */
  lemma ReservedAgreesWithGeneralRule(category: string)
    requires IsReserved(category)
    ensures Join(CapitalizeEach(Split(category, Hyphen)), Space) == FormatCategoryName(category)
  {
    assert Hyphen !in category;
    SplitWithoutSeparator(category, Hyphen);
    assert CapitalizeWord(category) == AllLabel;
  }
}
