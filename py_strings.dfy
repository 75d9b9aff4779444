/**
 * The few pieces of Python's `str` behaviour the application relies on,
 * written out over `seq<char>`: `split` on a one-character separator and its
 * inverse `join`, `replace` (every occurrence), ASCII `lower`/`upper`, and
 * decimal rendering of counts in f-strings.
 */
module PyStrings {

  /** Number of occurrences of `c` in `s`. */
  function Count(s: string, c: char): nat
    decreases |s|
  {
    if s == [] then 0 else (if s[0] == c then 1 else 0) + Count(s[1..], c)
  }

  // ---------------------------------------------------------------------
  // split / join

  /**
   * Python's `s.split(sep)` for a one-character separator: the pieces between
   * separators, empty pieces included, and `[""]` for the empty string.
   */
  function Split(s: string, sep: char): (r: seq<string>)
    ensures |r| >= 1
    decreases |s|
  {
    if s == [] then [""]
    else
      var rest := Split(s[1..], sep);
      if s[0] == sep then [""] + rest
      else [[s[0]] + rest[0]] + rest[1..]
  }

  /** Python's `sep.join(parts)`. */
  function Join(parts: seq<string>, sep: char): string
    decreases |parts|
  {
    if parts == [] then ""
    else if |parts| == 1 then parts[0]
    else parts[0] + [sep] + Join(parts[1..], sep)
  }

  /** Splitting yields one more piece than there are separators. */
  lemma {:induction false} SplitCount(s: string, sep: char)
    ensures |Split(s, sep)| == Count(s, sep) + 1
    decreases |s|
  {
    if s != [] {
      SplitCount(s[1..], sep);
    }
  }

  /** No piece contains the separator, and every character of a piece is a character of `s`. */
  lemma {:induction false} SplitPieces(s: string, sep: char)
    ensures forall i :: 0 <= i < |Split(s, sep)| ==> sep !in Split(s, sep)[i]
    ensures forall i, c :: 0 <= i < |Split(s, sep)| && c in Split(s, sep)[i] ==> c in s
    decreases |s|
  {
    if s != [] {
      SplitPieces(s[1..], sep);
      var rest := Split(s[1..], sep);
      var r := Split(s, sep);
      assert forall c :: c in s[1..] ==> c in s;
      if s[0] == sep {
        assert forall i :: 1 <= i < |r| ==> r[i] == rest[i - 1];
      } else {
        assert forall i :: 1 <= i < |r| ==> r[i] == rest[i];
        assert r[0] == [s[0]] + rest[0];
        assert forall c :: c in r[0] ==> c == s[0] || c in rest[0];
      }
    }
  }

  /** `join` undoes `split`: joining the pieces with the separator gives back `s`. */
  lemma {:induction false} JoinSplit(s: string, sep: char)
    ensures Join(Split(s, sep), sep) == s
    decreases |s|
  {
    if s != [] {
      var rest := Split(s[1..], sep);
      JoinSplit(s[1..], sep);
      if s[0] == sep {
        assert ([""] + rest)[1..] == rest;
      } else if |rest| == 1 {
      } else {
        var r := [[s[0]] + rest[0]] + rest[1..];
        assert r[1..] == rest[1..];
        assert Join(rest, sep) == rest[0] + [sep] + Join(rest[1..], sep);
      }
    }
  }

  /** `split` undoes `join` for a non-empty list of pieces free of the separator. */
  lemma {:induction false} SplitJoin(parts: seq<string>, sep: char)
    requires |parts| >= 1
    requires forall i :: 0 <= i < |parts| ==> sep !in parts[i]
    ensures Split(Join(parts, sep), sep) == parts
    decreases |parts|, |parts[0]|
  {
    if |parts[0]| > 0 {
      // Peel the first character of the first piece.
      var p := parts[0];
      var parts' := [p[1..]] + parts[1..];
      assert Join(parts, sep) == [p[0]] + Join(parts', sep) by {
        if |parts| > 1 {
          assert parts'[1..] == parts[1..];
        }
      }
      SplitJoin(parts', sep);
      var s := Join(parts, sep);
      assert s[1..] == Join(parts', sep);
      assert p[0] != sep by { assert p[0] in parts[0]; }
      assert Split(s[1..], sep) == parts';
      assert [p[0]] + p[1..] == p;
      assert parts == [p] + parts[1..];
    } else if |parts| > 1 {
      var s := Join(parts, sep);
      assert s == [sep] + Join(parts[1..], sep);
      assert s[1..] == Join(parts[1..], sep);
      SplitJoin(parts[1..], sep);
    }
  }

  /**
   * The first piece is the prefix of `s` up to (excluding) the first separator,
   * or all of `s` when there is none.
   */
  lemma {:induction false} SplitFirst(s: string, sep: char)
    ensures var first := Split(s, sep)[0];
      && |first| <= |s| && first == s[..|first|] && sep !in first
      && (|first| == |s| || s[|first|] == sep)
    decreases |s|
  {
    if s != [] && s[0] != sep {
      var rest := Split(s[1..], sep);
      SplitFirst(s[1..], sep);
      var first := [s[0]] + rest[0];
      assert Split(s, sep)[0] == first;
      assert s[..|first|] == [s[0]] + s[1..][..|rest[0]|];
      assert |first| < |s| ==> s[|first|] == s[1..][|rest[0]|];
    }
  }

  /**
   * When `s` holds the separator there are at least two pieces and the last
   * one is the text after the last separator; otherwise `s` is the only piece.
   */
  lemma {:induction false} SplitLast(s: string, sep: char)
    ensures sep !in s ==> Split(s, sep) == [s]
    ensures sep in s ==>
      && |Split(s, sep)| >= 2
      && exists k :: 0 <= k < |s| && s[k] == sep && Split(s, sep)[|Split(s, sep)| - 1] == s[k + 1..]
    decreases |s|
  {
    if s != [] {
      var rest := Split(s[1..], sep);
      var r := Split(s, sep);
      SplitLast(s[1..], sep);
      if s[0] == sep {
        assert r[|r| - 1] == rest[|rest| - 1];
        if sep in s[1..] {
          var k' :| 0 <= k' < |s[1..]| && s[1..][k'] == sep && rest[|rest| - 1] == s[1..][k' + 1..];
          assert s[k' + 1] == sep && s[1..][k' + 1..] == s[k' + 2..];
        } else {
          assert s[0] == sep && r[|r| - 1] == s[1..];
        }
      } else {
        if sep in s {
          assert sep in s[1..];
          var k' :| 0 <= k' < |s[1..]| && s[1..][k'] == sep && rest[|rest| - 1] == s[1..][k' + 1..];
          assert r[|r| - 1] == rest[|rest| - 1];
          assert s[k' + 1] == sep && s[1..][k' + 1..] == s[k' + 2..];
        } else {
          assert sep !in s[1..];
          assert s == [s[0]] + s[1..];
        }
      }
    }
  }

  // ---------------------------------------------------------------------
  // replace

  /** `pat` occurs in `s` starting at index `i`. */
  predicate OccursAt(s: string, pat: string, i: nat) {
    i + |pat| <= |s| && s[i..i + |pat|] == pat
  }

  /** `pat in s` for strings. */
  predicate Occurs(s: string, pat: string) {
    exists i: nat | i <= |s| :: OccursAt(s, pat, i)
  }

  /**
   * Python's `s.replace(pat, rep)`: every non-overlapping occurrence of `pat`,
   * scanned left to right, is replaced, also where `pat` sits inside a longer
   * word. The callers in the application only pass a non-empty `pat`.
   */
  function ReplaceAll(s: string, pat: string, rep: string): string
    requires |pat| > 0
    decreases |s|
  {
    if |s| < |pat| then s
    else if s[..|pat|] == pat then rep + ReplaceAll(s[|pat|..], pat, rep)
    else [s[0]] + ReplaceAll(s[1..], pat, rep)
  }

  /** A text without any occurrence of the pattern is left as it is. */
  lemma {:induction false} ReplaceAbsent(s: string, pat: string, rep: string)
    requires |pat| > 0
    requires !Occurs(s, pat)
    ensures ReplaceAll(s, pat, rep) == s
    decreases |s|
  {
    if |s| >= |pat| {
      assert !OccursAt(s, pat, 0);
      assert s[0..|pat|] == s[..|pat|];
      forall i: nat | OccursAt(s[1..], pat, i) ensures false {
        assert s[1..][i..i + |pat|] == s[i + 1..i + 1 + |pat|];
        assert OccursAt(s, pat, i + 1);
      }
      ReplaceAbsent(s[1..], pat, rep);
      assert s == [s[0]] + s[1..];
    }
  }

  /** Replacing a word by itself changes nothing. */
  lemma {:induction false} ReplaceSelf(s: string, pat: string)
    requires |pat| > 0
    ensures ReplaceAll(s, pat, pat) == s
    decreases |s|
  {
    if |s| >= |pat| {
      if s[..|pat|] == pat {
        ReplaceSelf(s[|pat|..], pat);
        assert s == s[..|pat|] + s[|pat|..];
      } else {
        ReplaceSelf(s[1..], pat);
        assert s == [s[0]] + s[1..];
      }
    }
  }

  /** A replacement of the same length as the pattern keeps the length of the text. */
  lemma {:induction false} ReplaceSameLength(s: string, pat: string, rep: string)
    requires |pat| > 0 && |rep| == |pat|
    ensures |ReplaceAll(s, pat, rep)| == |s|
    decreases |s|
  {
    if |s| >= |pat| {
      if s[..|pat|] == pat {
        ReplaceSameLength(s[|pat|..], pat, rep);
      } else {
        ReplaceSameLength(s[1..], pat, rep);
      }
    }
  }

  /** Replacing a one-character pattern by text without that character removes it everywhere. */
  lemma {:induction false} ReplaceCharRemoves(s: string, c: char, rep: string)
    requires c !in rep
    ensures c !in ReplaceAll(s, [c], rep)
    decreases |s|
  {
    if |s| >= 1 {
      if s[..1] == [c] {
        ReplaceCharRemoves(s[1..], c, rep);
      } else {
        assert s[0] != c by { assert s[..1] == [s[0]]; }
        ReplaceCharRemoves(s[1..], c, rep);
      }
    }
  }

  /** The occurrence inside a longer word is replaced too: "cat" in "cats". */
  lemma ReplaceInsideLongerWord()
    ensures ReplaceAll("cat cats", "cat", "dog") == "dog dogs"
  {
    ReplaceInsideCats();
    ReplaceStep(" cats", ' ', "cats");
    ReplaceMatch(" cats");
    assert "cat" + " cats" == "cat cats";
    assert "dog" + (" " + "dogs") == "dog dogs";
  }

  lemma ReplaceInsideCats()
    ensures ReplaceAll("cats", "cat", "dog") == "dogs"
  {
    assert ReplaceAll("s", "cat", "dog") == "s";
    ReplaceMatch("s");
    assert "cat" + "s" == "cats";
    assert "dog" + "s" == "dogs";
  }

  /** A string that does not start with "cat" keeps its first character. */
  lemma ReplaceStep(s: string, c: char, rest: string)
    requires s == [c] + rest && |s| >= 3 && c != 'c'
    ensures ReplaceAll(s, "cat", "dog") == [c] + ReplaceAll(rest, "cat", "dog")
  {
    assert s[..3] != "cat" by { assert s[0] == c; }
    assert s[1..] == rest;
  }

  /** A string that starts with "cat" has it replaced. */
  lemma ReplaceMatch(rest: string)
    ensures ReplaceAll("cat" + rest, "cat", "dog") == "dog" + ReplaceAll(rest, "cat", "dog")
  {
    var s := "cat" + rest;
    assert s[..3] == "cat";
    assert s[3..] == rest;
  }

  // ---------------------------------------------------------------------
  // case mapping (ASCII letters only)

  function LowerChar(c: char): char {
    if 'A' <= c <= 'Z' then (c as int + 32) as char else c
  }

  function UpperChar(c: char): char {
    if 'a' <= c <= 'z' then (c as int - 32) as char else c
  }

  /** Python's `s.lower()` restricted to ASCII letters. */
  function Lower(s: string): string {
    seq(|s|, i requires 0 <= i < |s| => LowerChar(s[i]))
  }

  /** Python's `s.upper()` restricted to ASCII letters. */
  function Upper(s: string): string {
    seq(|s|, i requires 0 <= i < |s| => UpperChar(s[i]))
  }

  // ---------------------------------------------------------------------
  // decimal rendering of counts

  function DigitChar(d: nat): char
    requires d < 10
  {
    ('0' as int + d) as char
  }

  predicate IsDigit(c: char) { '0' <= c <= '9' }

  /** The decimal text an f-string gives for a non-negative integer. */
  function NatToString(n: nat): (r: string)
    ensures |r| >= 1
    ensures forall i :: 0 <= i < |r| ==> IsDigit(r[i])
  {
    if n < 10 then [DigitChar(n)] else NatToString(n / 10) + [DigitChar(n % 10)]
  }

  /** Reads back a string of decimal digits. */
  function ParseNat(s: string): nat
    requires forall i :: 0 <= i < |s| ==> IsDigit(s[i])
    decreases |s|
  {
    if s == [] then 0 else 10 * ParseNat(s[..|s| - 1]) + DigitValue(s[|s| - 1])
  }

  function DigitValue(c: char): nat
    requires IsDigit(c)
  {
    c as int - '0' as int
  }

  /** Rendering a count loses nothing: parsing the text gives the count back. */
  lemma {:induction false} ParseNatToString(n: nat)
    ensures ParseNat(NatToString(n)) == n
  {
    if n >= 10 {
      ParseNatToString(n / 10);
      var s := NatToString(n);
      assert s[..|s| - 1] == NatToString(n / 10);
    }
  }
}
