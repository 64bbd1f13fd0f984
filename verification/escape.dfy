/** The apostrophe substitution around the details button's `data-product`
    attribute: every `'` is written as `&apos;` when the card is built, and
    every `&apos;` is turned back into `'` when the button is clicked. */
module AposEscape {

  const Apostrophe: char := '\''
  const Entity: string := "&apos;"

  /** `s.replace(/'/g, "&apos;")`. */
  function Escape(s: string): (r: string)
    ensures Apostrophe !in r
  {
    if |s| == 0 then ""
    else (if s[0] == Apostrophe then Entity else [s[0]]) + Escape(s[1..])
  }

  /** `s.replace(/&apos;/g, "'")`: matches are replaced left to right. */
  function Unescape(s: string): (r: string)
    ensures |r| <= |s|
  {
    if |s| == 0 then ""
    else if |s| >= |Entity| && s[..|Entity|] == Entity then [Apostrophe] + Unescape(s[|Entity|..])
    else [s[0]] + Unescape(s[1..])
  }

  /** An `&apos;` starts at position `i` of `s`. */
  predicate EntityAt(s: string, i: int)
  {
    0 <= i <= |s| - |Entity| && s[i..i + |Entity|] == Entity
  }

  /** `s` has an `&apos;` somewhere in it. */
  ghost predicate ContainsEntity(s: string)
  {
    exists i :: EntityAt(s, i)
  }

  /** If the escape of `t` starts with a word free of `&`, then `t` itself
      starts with that word (the escape only inserts text beginning with `&`). */
  lemma {:induction false} EscapedPlainPrefix(t: string, w: string)
    requires '&' !in w
    requires |w| <= |Escape(t)| && Escape(t)[..|w|] == w
    ensures |w| <= |t| && t[..|w|] == w
    decreases |w|
  {
    if |w| > 0 {
      assert Escape(t)[0] == w[0];
      assert |t| > 0;
      assert t[0] != Apostrophe;
      var e := Escape(t[1..]);
      assert Escape(t) == [t[0]] + e;
      assert e[..|w| - 1] == w[1..];
      EscapedPlainPrefix(t[1..], w[1..]);
    }
  }

  /** An `&apos;` in the tail of a string is one in the string itself. */
  lemma EntityInTail(s: string)
    requires |s| > 0
    ensures ContainsEntity(s[1..]) ==> ContainsEntity(s)
  {
    var t := s[1..];
    if ContainsEntity(t) {
      var i :| EntityAt(t, i);
      assert s[i + 1..i + 1 + |Entity|] == t[i..i + |Entity|];
      assert EntityAt(s, i + 1);
    }
  }

  /** When a string does not start with an apostrophe, its escape starts
      with `&apos;` only if the string itself does. */
  lemma EscapeStartsWithEntity(s: string)
    requires |s| > 0 && s[0] != Apostrophe
    ensures |Escape(s)| >= |Entity| && Escape(s)[..|Entity|] == Entity ==> EntityAt(s, 0)
  {
    var e := Escape(s[1..]);
    assert Escape(s) == [s[0]] + e;
    if |Escape(s)| >= |Entity| && Escape(s)[..|Entity|] == Entity {
      assert Escape(s)[1..|Entity|] == e[..|Entity| - 1];
      assert Escape(s)[1..|Entity|] == Entity[1..] == "apos;";
      EscapedPlainPrefix(s[1..], "apos;");
      assert s[0..|Entity|] == Entity;
    }
  }

  /** Un-escaping the escape gives the original back, provided the original
      held no `&apos;` of its own. */
  lemma {:induction false} RoundTrip(s: string)
    requires !ContainsEntity(s)
    ensures Unescape(Escape(s)) == s
    decreases |s|
  {
    if |s| > 0 {
      var t := s[1..];
      EntityInTail(s);
      RoundTrip(t);
      var e := Escape(t);
      if s[0] == Apostrophe {
        assert Escape(s) == Entity + e;
        assert (Entity + e)[|Entity|..] == e;
      } else {
        assert Escape(s) == [s[0]] + e;
        EscapeStartsWithEntity(s);
        assert ([s[0]] + e)[1..] == e;
      }
      assert s == [s[0]] + t;
    }
  }

  /** A title that already spells `&apos;` does not survive the round trip. */
  lemma EntityBreaksRoundTrip()
    ensures Unescape(Escape("&apos;")) == "'"
    ensures Unescape(Escape("&apos;")) != "&apos;"
  {
    var s := "&apos;";
    assert Escape(s) == s by {
      assert Apostrophe !in s;
      EscapeWithoutApostrophe(s);
    }
    assert s[..|Entity|] == Entity;
    assert Unescape(s) == [Apostrophe] + Unescape("");
  }

  /** Escaping leaves text without apostrophes untouched. */
  lemma {:induction false} EscapeWithoutApostrophe(s: string)
    requires Apostrophe !in s
    ensures Escape(s) == s
    decreases |s|
  {
    if |s| > 0 {
      assert Apostrophe !in s[1..];
      EscapeWithoutApostrophe(s[1..]);
      assert s == [s[0]] + s[1..];
    }
  }
}
