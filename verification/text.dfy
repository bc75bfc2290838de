/** The string primitives the lexer relies on: Rust's `str::trim` and `str::split` on one character. */
module Text {

  /**
   * Rust's `char::is_whitespace`: the characters with the Unicode White_Space property.
   */
  predicate IsWhitespace(c: char) {
    var n := c as int;
    || (0x09 <= n <= 0x0D)
    || n == 0x20
    || n == 0x85
    || n == 0xA0
    || n == 0x1680
    || (0x2000 <= n <= 0x200A)
    || n == 0x2028
    || n == 0x2029
    || n == 0x202F
    || n == 0x205F
    || n == 0x3000
  }

  /** True iff every character of `s` is whitespace (the empty string included). */
  predicate AllWhitespace(s: string) {
    forall k :: 0 <= k < |s| ==> IsWhitespace(s[k])
  }

  /** `s` without its leading whitespace. */
  function TrimStart(s: string): (r: string)
    ensures |r| <= |s|
  {
    if |s| > 0 && IsWhitespace(s[0]) then TrimStart(s[1..]) else s
  }

  /** `s` without its trailing whitespace. */
  function TrimEnd(s: string): (r: string)
    ensures |r| <= |s|
  {
    if |s| > 0 && IsWhitespace(s[|s| - 1]) then TrimEnd(s[..|s| - 1]) else s
  }

  /** `TrimStart` keeps the longest suffix that starts with a non-whitespace character. */
  lemma {:induction false} TrimStartSpec(s: string)
    ensures var r := TrimStart(s);
      && r == s[|s| - |r|..]
      && AllWhitespace(s[..|s| - |r|])
      && (|r| > 0 ==> !IsWhitespace(r[0]))
    decreases |s|
  {
    if |s| > 0 && IsWhitespace(s[0]) {
      TrimStartSpec(s[1..]);
      var r := TrimStart(s);
      assert s[1..][|s| - 1 - |r|..] == s[|s| - |r|..];
      assert s[..|s| - |r|] == [s[0]] + s[1..][..|s| - 1 - |r|];
    }
  }

  /** `TrimEnd` keeps the longest prefix that ends with a non-whitespace character. */
  lemma {:induction false} TrimEndSpec(s: string)
    ensures var r := TrimEnd(s);
      && r == s[..|r|]
      && AllWhitespace(s[|r|..])
      && (|r| > 0 ==> !IsWhitespace(r[|r| - 1]))
    decreases |s|
  {
    if |s| > 0 && IsWhitespace(s[|s| - 1]) {
      TrimEndSpec(s[..|s| - 1]);
      var r := TrimEnd(s);
      assert s[..|s| - 1][..|r|] == s[..|r|];
      assert s[|r|..] == s[..|s| - 1][|r|..] + [s[|s| - 1]];
    }
  }

  /** Rust's `str::trim`: whitespace removed from both ends. */
  function Trim(s: string): (r: string)
    ensures |r| <= |s|
  {
    TrimEnd(TrimStart(s))
  }

  /** `Trim` leaves a slice of `s` with whitespace only around it and non-whitespace at both its ends. */
  lemma TrimSpec(s: string)
    ensures var r := Trim(s);
      && (exists a :: 0 <= a <= |s| - |r| && r == s[a..a + |r|] && AllWhitespace(s[..a]) && AllWhitespace(s[a + |r|..]))
      && (|r| > 0 ==> !IsWhitespace(r[0]) && !IsWhitespace(r[|r| - 1]))
  {
    var t := TrimStart(s);
    var r := Trim(s);
    TrimStartSpec(s);
    TrimEndSpec(t);
    var a := |s| - |t|;
    assert r == s[a..a + |r|];
    assert s[a + |r|..] == t[|r|..];
  }

  /** A string is left alone by `Trim` exactly when it is empty or has non-whitespace at both ends. */
  lemma TrimFixedPoint(s: string)
    ensures Trim(s) == s <==> |s| == 0 || (!IsWhitespace(s[0]) && !IsWhitespace(s[|s| - 1]))
  {
    TrimSpec(s);
    if |s| > 0 && !IsWhitespace(s[0]) && !IsWhitespace(s[|s| - 1]) {
      assert TrimStart(s) == s;
      assert TrimEnd(s) == s;
    }
  }

  /** Trimming twice is trimming once. */
  lemma TrimIdempotent(s: string)
    ensures Trim(Trim(s)) == Trim(s)
  {
    TrimSpec(s);
    TrimFixedPoint(Trim(s));
  }

  /** A line is blank after trimming exactly when it consists of whitespace only. */
  lemma TrimBlank(s: string)
    ensures |Trim(s)| == 0 <==> AllWhitespace(s)
  {
    var a := TrimStart(s);
    TrimStartSpec(s);
    TrimEndSpec(a);
    if |Trim(s)| == 0 {
      assert AllWhitespace(a[|Trim(s)|..]);
      assert s == s[..|s| - |a|] + a;
    } else {
      var r := Trim(s);
      assert r == a[..|r|];
      assert s[|s| - |a|] == r[0];
    }
  }

  /**
   * Rust's `str::split` on a one-character separator: the pieces between occurrences of `sep`,
   * empty pieces included, so there is always one piece more than there are separators.
   */
  function Split(s: string, sep: char): (r: seq<string>)
    ensures |r| > 0
    decreases |s|
  {
    if |s| == 0 then [""]
    else
      var rest := Split(s[1..], sep);
      if s[0] == sep then [""] + rest
      else [[s[0]] + rest[0]] + rest[1..]
  }

  /** No piece contains the separator. */
  lemma {:induction false} SplitPiecesSeparatorFree(s: string, sep: char)
    ensures forall j :: 0 <= j < |Split(s, sep)| ==> sep !in Split(s, sep)[j]
    decreases |s|
  {
    if |s| > 0 {
      SplitPiecesSeparatorFree(s[1..], sep);
      var rest := Split(s[1..], sep);
      if s[0] != sep {
        assert forall c :: c in [s[0]] + rest[0] ==> c == s[0] || c in rest[0];
      }
    }
  }

  /** The pieces glued back together with `sep` between neighbours. */
  function Join(pieces: seq<string>, sep: char): string
    requires |pieces| > 0
    decreases |pieces|
  {
    if |pieces| == 1 then pieces[0] else pieces[0] + [sep] + Join(pieces[1..], sep)
  }

  /** Splitting loses nothing: joining the pieces gives back the original text. */
  lemma {:induction false} JoinSplit(s: string, sep: char)
    ensures Join(Split(s, sep), sep) == s
    decreases |s|
  {
    if |s| > 0 {
      var rest := Split(s[1..], sep);
      JoinSplit(s[1..], sep);
      if s[0] == sep {
        assert Split(s, sep) == [""] + rest;
        assert Join([""] + rest, sep) == [sep] + Join(rest, sep);
      } else {
        var r := Split(s, sep);
        assert r == [[s[0]] + rest[0]] + rest[1..];
        if |rest| == 1 {
          assert Join(r, sep) == [s[0]] + rest[0];
        } else {
          assert r[1..] == rest[1..];
          assert Join(r, sep) == [s[0]] + rest[0] + [sep] + Join(rest[1..], sep);
          assert Join(rest, sep) == rest[0] + [sep] + Join(rest[1..], sep);
        }
      }
    }
  }

  /** The only piece list with no separator in it that joins back to `s` is `Split(s, sep)`. */
  lemma {:induction false} SplitJoin(pieces: seq<string>, sep: char)
    requires |pieces| > 0
    requires forall j :: 0 <= j < |pieces| ==> sep !in pieces[j]
    ensures Split(Join(pieces, sep), sep) == pieces
    decreases |Join(pieces, sep)|
  {
    var s := Join(pieces, sep);
    if |pieces| == 1 {
      SplitNoSeparator(pieces[0], sep);
    } else if |pieces[0]| == 0 {
      assert s == [sep] + Join(pieces[1..], sep);
      assert s[1..] == Join(pieces[1..], sep);
      SplitJoin(pieces[1..], sep);
    } else {
      var p := pieces[0];
      var smaller := [p[1..]] + pieces[1..];
      assert smaller[1..] == pieces[1..];
      assert s == [p[0]] + Join(smaller, sep) by {
        assert p == [p[0]] + p[1..];
        if |smaller| > 1 {
          assert Join(smaller, sep) == p[1..] + [sep] + Join(pieces[1..], sep);
        }
      }
      assert s[1..] == Join(smaller, sep);
      assert forall j :: 0 <= j < |smaller| ==> sep !in smaller[j] by {
        forall j | 0 <= j < |smaller|
          ensures sep !in smaller[j]
        {
          if j == 0 {
            assert forall c :: c in p[1..] ==> c in p;
          } else {
            assert smaller[j] == pieces[j];
          }
        }
      }
      SplitJoin(smaller, sep);
      assert p[0] in p;
      assert [p[0]] + p[1..] == p;
    }
  }

  /** A string without the separator splits into itself alone. */
  lemma {:induction false} SplitNoSeparator(s: string, sep: char)
    requires sep !in s
    ensures Split(s, sep) == [s]
    decreases |s|
  {
    if |s| > 0 {
      assert sep !in s[1..] by {
        assert forall c :: c in s[1..] ==> c in s;
      }
      SplitNoSeparator(s[1..], sep);
      assert s == [s[0]] + s[1..];
    }
  }
}
