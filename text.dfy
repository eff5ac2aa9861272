/**
 * The two pieces of string handling the repository relies on: splitting a
 * string on one separator character (with and without dropping empty
 * entries), and the case-insensitive comparison used when a path segment is
 * matched against property names.
 */
module Text {

  /** Number of occurrences of `c` in `s`. */
  function Count(s: string, c: char): nat
  {
    if |s| == 0 then 0 else (if s[0] == c then 1 else 0) + Count(s[1..], c)
  }

  /**
   * Splitting on one separator, keeping empty entries: `n` separators give
   * `n + 1` pieces, and no piece contains the separator.
   */
  function Split(s: string, sep: char): (parts: seq<string>)
    ensures |parts| == Count(s, sep) + 1
    ensures forall i :: 0 <= i < |parts| ==> sep !in parts[i]
    decreases |s|
  {
    if |s| == 0 then [""]
    else
      var rest := Split(s[1..], sep);
      if s[0] == sep then [""] + rest
      else [[s[0]] + rest[0]] + rest[1..]
  }

  /** The pieces put back together with the separator between consecutive ones. */
  function Join(parts: seq<string>, sep: char): string
  {
    if |parts| == 0 then ""
    else if |parts| == 1 then parts[0]
    else parts[0] + [sep] + Join(parts[1..], sep)
  }

  /** Concatenation of the pieces, with nothing between them. */
  function Concat(parts: seq<string>): string
  {
    if |parts| == 0 then "" else parts[0] + Concat(parts[1..])
  }

  /** `s` with every occurrence of `c` deleted. */
  function Strip(s: string, c: char): string
  {
    if |s| == 0 then "" else (if s[0] == c then "" else [s[0]]) + Strip(s[1..], c)
  }

  /** The pieces that are not empty, in their original order. */
  function RemoveEmpty(parts: seq<string>): (r: seq<string>)
    ensures forall p :: p in r <==> p in parts && p != ""
    ensures |r| <= |parts|
  {
    if |parts| == 0 then []
    else if parts[0] == "" then RemoveEmpty(parts[1..])
    else [parts[0]] + RemoveEmpty(parts[1..])
  }

  /** Dropping empty pieces keeps the order of the rest: it distributes over concatenation. */
  lemma {:induction false} RemoveEmptyAppend(a: seq<string>, b: seq<string>)
    ensures RemoveEmpty(a + b) == RemoveEmpty(a) + RemoveEmpty(b)
    decreases |a|
  {
    if |a| == 0 {
      assert a + b == b;
    } else {
      assert (a + b)[0] == a[0];
      assert (a + b)[1..] == a[1..] + b;
      RemoveEmptyAppend(a[1..], b);
    }
  }

  /** Pieces none of which is empty are all kept, in order. */
  lemma {:induction false} RemoveEmptyKeepsNonEmpty(parts: seq<string>)
    requires forall i :: 0 <= i < |parts| ==> parts[i] != ""
    ensures RemoveEmpty(parts) == parts
    decreases |parts|
  {
    if |parts| > 0 {
      RemoveEmptyKeepsNonEmpty(parts[1..]);
      assert parts == [parts[0]] + parts[1..];
    }
  }

  /** Splitting on `sep` with empty entries removed. */
  function SplitRemoveEmpty(s: string, sep: char): (r: seq<string>)
    ensures forall i :: 0 <= i < |r| ==> r[i] != "" && sep !in r[i]
  {
    var parts := Split(s, sep);
    var r := RemoveEmpty(parts);
    assert forall i :: 0 <= i < |r| ==> r[i] in parts;
    r
  }

  /**
   * With empty entries removed, the pieces on either side of a separator
   * follow one another in order: "a,b" gives the pieces of a, then those of b.
   */
  lemma SplitRemoveEmptyAround(a: string, b: string, sep: char)
    ensures SplitRemoveEmpty(a + [sep] + b, sep) == SplitRemoveEmpty(a, sep) + SplitRemoveEmpty(b, sep)
  {
    SplitAround(a, b, sep);
    RemoveEmptyAppend(Split(a, sep), Split(b, sep));
  }

  /** A non-empty string without the separator is the one and only piece. */
  lemma SplitRemoveEmptySingle(a: string, sep: char)
    requires a != "" && sep !in a
    ensures SplitRemoveEmpty(a, sep) == [a]
  {
    SplitWithoutSeparator(a, sep);
    RemoveEmptyKeepsNonEmpty([a]);
  }

  /** Joining the pieces of a split gives back the original string. */
  lemma {:induction false} JoinSplit(s: string, sep: char)
    ensures Join(Split(s, sep), sep) == s
    decreases |s|
  {
    if |s| > 0 {
      var rest := Split(s[1..], sep);
      JoinSplit(s[1..], sep);
      if s[0] == sep {
        assert Split(s, sep) == [""] + rest;
        assert s == [sep] + s[1..];
      } else if |rest| == 1 {
        assert Split(s, sep) == [[s[0]] + rest[0]];
        assert s == [s[0]] + s[1..];
      } else {
        var parts := Split(s, sep);
        assert parts == [[s[0]] + rest[0]] + rest[1..];
        assert parts[1..] == rest[1..];
        assert Join(rest, sep) == rest[0] + [sep] + Join(rest[1..], sep);
        assert s == [s[0]] + s[1..];
      }
    }
  }

  /** A separator between two strings splits them into independent halves. */
  lemma {:induction false} SplitAround(a: string, b: string, sep: char)
    ensures Split(a + [sep] + b, sep) == Split(a, sep) + Split(b, sep)
    decreases |a|
  {
    if |a| == 0 {
      assert a + [sep] + b == [sep] + b;
      assert ([sep] + b)[1..] == b;
    } else {
      var s := a + [sep] + b;
      assert s[0] == a[0];
      assert s[1..] == a[1..] + [sep] + b;
      SplitAround(a[1..], b, sep);
    }
  }

  /** A string without the separator is split into itself alone. */
  lemma {:induction false} SplitWithoutSeparator(a: string, sep: char)
    requires sep !in a
    ensures Split(a, sep) == [a]
    decreases |a|
  {
    if |a| > 0 {
      SplitWithoutSeparator(a[1..], sep);
      assert a == [a[0]] + a[1..];
    }
  }

  /**
   * Splitting undoes joining: pieces that do not contain the separator are
   * recovered exactly from their join.
   */
  lemma {:induction false} SplitJoin(parts: seq<string>, sep: char)
    requires |parts| >= 1
    requires forall i :: 0 <= i < |parts| ==> sep !in parts[i]
    ensures Split(Join(parts, sep), sep) == parts
    decreases |parts|
  {
    SplitWithoutSeparator(parts[0], sep);
    if |parts| > 1 {
      SplitJoin(parts[1..], sep);
      SplitAround(parts[0], Join(parts[1..], sep), sep);
      assert parts == [parts[0]] + parts[1..];
    }
  }

  /** Two consecutive separators (as in "a..b") always produce an empty piece. */
  lemma DoubledSeparatorGivesEmptyPiece(a: string, b: string, sep: char)
    ensures "" in Split(a + [sep, sep] + b, sep)
  {
    assert a + [sep, sep] + b == a + [sep] + ([] + [sep] + b);
    SplitAround(a, [] + [sep] + b, sep);
    SplitAround([], b, sep);
    assert Split([], sep) == [""];
    assert Split(a, sep) + Split([] + [sep] + b, sep) == Split(a, sep) + ([""] + Split(b, sep));
    assert Split(a + [sep, sep] + b, sep)[|Split(a, sep)|] == "";
  }

  /** Dropping empty pieces loses no characters. */
  lemma {:induction false} ConcatRemoveEmpty(parts: seq<string>)
    ensures Concat(RemoveEmpty(parts)) == Concat(parts)
    decreases |parts|
  {
    if |parts| > 0 {
      ConcatRemoveEmpty(parts[1..]);
      if parts[0] != "" {
        assert ([parts[0]] + RemoveEmpty(parts[1..]))[1..] == RemoveEmpty(parts[1..]);
      }
    }
  }

  /** The pieces of a split, concatenated, are the string with its separators deleted. */
  lemma {:induction false} ConcatSplit(s: string, sep: char)
    ensures Concat(Split(s, sep)) == Strip(s, sep)
    decreases |s|
  {
    if |s| > 0 {
      ConcatSplit(s[1..], sep);
      var rest := Split(s[1..], sep);
      if s[0] == sep {
        assert ([""] + rest)[1..] == rest;
      } else {
        var parts := [[s[0]] + rest[0]] + rest[1..];
        assert parts[1..] == rest[1..];
        assert Concat(rest) == rest[0] + Concat(rest[1..]);
      }
    }
  }

  /**
   * Splitting with empty entries removed keeps every non-separator character,
   * in order: the pieces concatenate to the input without its separators, and
   * none of them is empty.
   */
  lemma SplitRemoveEmptyKeepsContent(s: string, sep: char)
    ensures Concat(SplitRemoveEmpty(s, sep)) == Strip(s, sep)
    ensures s == "" ==> SplitRemoveEmpty(s, sep) == []
  {
  }

  /** Upper-case ASCII letters mapped to lower case; every other character unchanged. */
  function FoldChar(c: char): (r: char)
    ensures !('A' <= r <= 'Z')
    ensures 'A' <= c <= 'Z' ==> 'a' <= r <= 'z' && r as int == c as int + 32
    ensures !('A' <= c <= 'Z') ==> r == c
  {
    if 'A' <= c <= 'Z' then (c as int - 'A' as int + 'a' as int) as char else c
  }

  /** The case-folded form of a name. */
  function Fold(s: string): (r: string)
    ensures |r| == |s|
  {
    seq(|s|, i requires 0 <= i < |s| => FoldChar(s[i]))
  }

  /** Two names equal when case is ignored. */
  predicate EqualsIgnoreCase(a: string, b: string)
  {
    Fold(a) == Fold(b)
  }

  /** `a` and `b` are the upper- and lower-case forms of one ASCII letter, in either order. */
  predicate SameLetter(a: char, b: char)
  {
    ('A' <= a <= 'Z' && b as int == a as int + 32) || ('A' <= b <= 'Z' && a as int == b as int + 32)
  }

  /** Two characters fold alike exactly when they are equal or are the two cases of one letter. */
  lemma FoldCharEqual(a: char, b: char)
    ensures FoldChar(a) == FoldChar(b) <==> a == b || SameLetter(a, b)
  {
  }

  /**
   * What comparing names ignoring case means: the same length, and at every
   * position the same character or the two cases of one ASCII letter.
   */
  lemma EqualsIgnoreCaseMeans(a: string, b: string)
    ensures EqualsIgnoreCase(a, b) <==>
              |a| == |b| && forall i :: 0 <= i < |a| ==> a[i] == b[i] || SameLetter(a[i], b[i])
  {
    if EqualsIgnoreCase(a, b) {
      forall i | 0 <= i < |a|
        ensures a[i] == b[i] || SameLetter(a[i], b[i])
      {
        assert Fold(a)[i] == Fold(b)[i];
        FoldCharEqual(a[i], b[i]);
      }
    }
    if |a| == |b| && forall i :: 0 <= i < |a| ==> a[i] == b[i] || SameLetter(a[i], b[i]) {
      forall i | 0 <= i < |a|
        ensures Fold(a)[i] == Fold(b)[i]
      {
        FoldCharEqual(a[i], b[i]);
      }
    }
  }

  /** Folding twice is folding once, so a folded name is its own folded form. */
  lemma FoldIdempotent(s: string)
    ensures Fold(Fold(s)) == Fold(s)
  {
  }

  /** Each piece folded. */
  function FoldEach(parts: seq<string>): seq<string>
  {
    seq(|parts|, i requires 0 <= i < |parts| => Fold(parts[i]))
  }

  lemma FoldCons(c: char, t: string)
    ensures Fold([c] + t) == [FoldChar(c)] + Fold(t)
  {
  }

  lemma FoldEachCons(p: string, ps: seq<string>)
    ensures FoldEach([p] + ps) == [Fold(p)] + FoldEach(ps)
  {
  }

  /**
   * Splitting on a separator that is not a letter commutes with folding, so
   * paths equal up to case split into pieces equal up to case.
   */
  lemma {:induction false} SplitFold(s: string, sep: char)
    requires !('A' <= sep <= 'Z') && !('a' <= sep <= 'z')
    ensures Split(Fold(s), sep) == FoldEach(Split(s, sep))
    decreases |s|
  {
    if |s| > 0 {
      var c, t := s[0], s[1..];
      assert s == [c] + t;
      FoldCons(c, t);
      var f := Fold(s);
      assert f[0] == FoldChar(c) && f[1..] == Fold(t);
      assert (FoldChar(c) == sep) == (c == sep);
      SplitFold(t, sep);
      var rest := Split(t, sep);
      assert Split(Fold(t), sep) == FoldEach(rest);
      if c == sep {
        FoldEachCons("", rest);
        assert Fold("") == "";
      } else {
        FoldCons(c, rest[0]);
        assert rest == [rest[0]] + rest[1..];
        FoldEachCons(rest[0], rest[1..]);
        FoldEachCons([c] + rest[0], rest[1..]);
      }
    }
  }
}
