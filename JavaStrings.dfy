/**
 * The result type that stands for the exceptions the service throws, and an
 * option type for values that may be absent.
 */
module Results {
  datatype Option<+T> = None | Some(value: T)

  /** `Err(message)` stands for a thrown exception whose `getMessage()` is `message`. */
  datatype Result<+T> = Ok(value: T) | Err(message: string)
}

/**
 * The few `java.lang.String` operations the generator relies on, restricted
 * to the ASCII alphabet: `toLowerCase`, `String.CASE_INSENSITIVE_ORDER`,
 * `String.join`, `trim` and `split` with a one-character pattern.
 */
module JavaStrings {

  /** `Character.toLowerCase` on ASCII; every other character is left as it is. */
  function LowerChar(c: char): char
  {
    if 'A' <= c <= 'Z' then (c as int + 32) as char else c
  }

  /** `String.toLowerCase()` (ASCII, root locale). */
  function ToLower(s: string): (r: string)
    ensures |r| == |s|
    ensures forall i :: 0 <= i < |r| ==> !('A' <= r[i] <= 'Z')
    ensures forall i :: 0 <= i < |s| && 'A' <= s[i] <= 'Z' ==> r[i] as int == s[i] as int + 32
    ensures forall i :: 0 <= i < |s| && !('A' <= s[i] <= 'Z') ==> r[i] == s[i]
  {
    seq(|s|, i requires 0 <= i < |s| => LowerChar(s[i]))
  }

  /** Lower-casing an already lower-cased name changes nothing. */
  lemma ToLowerIdempotent(s: string)
    ensures ToLower(ToLower(s)) == ToLower(s)
  {
  }

  /**
   * `String.CASE_INSENSITIVE_ORDER.compare(a, b)`: the difference of the first
   * pair of characters that differ once folded, or else the difference of the lengths.
   */
  function CompareIgnoreCase(a: string, b: string): int
    decreases |a|
  {
    if a == [] || b == [] then |a| - |b|
    else if LowerChar(a[0]) != LowerChar(b[0]) then LowerChar(a[0]) as int - LowerChar(b[0]) as int
    else CompareIgnoreCase(a[1..], b[1..])
  }

  /** The comparator is antisymmetric. */
  lemma {:induction false} CompareIgnoreCaseAntisymmetric(a: string, b: string)
    ensures CompareIgnoreCase(a, b) == -CompareIgnoreCase(b, a)
    decreases |a|
  {
    if a != [] && b != [] && LowerChar(a[0]) == LowerChar(b[0]) {
      CompareIgnoreCaseAntisymmetric(a[1..], b[1..]);
    }
  }

  /** Two strings compare equal exactly when they are equal after folding. */
  lemma {:induction false} CompareIgnoreCaseZero(a: string, b: string)
    ensures CompareIgnoreCase(a, b) == 0 <==> ToLower(a) == ToLower(b)
    decreases |a|
  {
    if a != [] && b != [] {
      CompareIgnoreCaseZero(a[1..], b[1..]);
      assert ToLower(a) == [LowerChar(a[0])] + ToLower(a[1..]);
      assert ToLower(b) == [LowerChar(b[0])] + ToLower(b[1..]);
      if LowerChar(a[0]) != LowerChar(b[0]) {
        assert ToLower(a)[0] != ToLower(b)[0];
      }
    }
  }

  /**
   * `Arrays.sort(new String[] {a, b}, String.CASE_INSENSITIVE_ORDER)`: a stable
   * sort of two elements, which swaps them only when the first compares greater.
   */
  function SortIgnoreCase(a: string, b: string): (r: (string, string))
    ensures (r.0 == a && r.1 == b) || (r.0 == b && r.1 == a)
    ensures CompareIgnoreCase(r.0, r.1) <= 0
    ensures CompareIgnoreCase(a, b) <= 0 ==> r == (a, b)
  {
    CompareIgnoreCaseAntisymmetric(a, b);
    if CompareIgnoreCase(a, b) <= 0 then (a, b) else (b, a)
  }

  /** Sorting two names that differ once folded does not depend on their order. */
  lemma SortIgnoreCaseSymmetric(a: string, b: string)
    requires ToLower(a) != ToLower(b)
    ensures SortIgnoreCase(a, b) == SortIgnoreCase(b, a)
  {
    CompareIgnoreCaseZero(a, b);
    CompareIgnoreCaseAntisymmetric(a, b);
  }

  /** `String.join(sep, parts)`. */
  function Join(sep: string, parts: seq<string>): string
    decreases |parts|
  {
    if |parts| == 0 then ""
    else if |parts| == 1 then parts[0]
    else parts[0] + sep + Join(sep, parts[1..])
  }

  /**
   * A reference layout for a parenthesised list written one element per line:
   * every element but the last is followed by ",\n", the last by "\n".
   */
  function CommaLines(elements: seq<string>): string
    decreases |elements|
  {
    if |elements| == 0 then ""
    else if |elements| == 1 then elements[0] + "\n"
    else elements[0] + ",\n" + CommaLines(elements[1..])
  }

  /** A non-empty list joined by ",\n" and closed by "\n" has the reference layout. */
  lemma {:induction false} JoinThenNewline(elements: seq<string>)
    requires |elements| > 0
    ensures Join(",\n", elements) + "\n" == CommaLines(elements)
    decreases |elements|
  {
    if |elements| > 1 {
      JoinThenNewline(elements[1..]);
    }
  }

  /**
   * Two non-empty lists, the first joined by ",\n" and then ",\n", followed by
   * the second in the reference layout, are the whole list in the reference layout.
   */
  lemma {:induction false} JoinThenCommaLines(front: seq<string>, back: seq<string>)
    requires |front| > 0 && |back| > 0
    ensures Join(",\n", front) + ",\n" + CommaLines(back) == CommaLines(front + back)
    decreases |front|
  {
    if |front| == 1 {
      assert (front + back)[1..] == back;
    } else {
      JoinThenCommaLines(front[1..], back);
      assert (front + back)[1..] == front[1..] + back;
    }
  }

  /** The text a `StringBuilder` holds after appending `parts` in order. */
  function Concat(parts: seq<string>): string
    decreases |parts|
  {
    if parts == [] then "" else Concat(parts[..|parts| - 1]) + parts[|parts| - 1]
  }

  lemma {:induction false} ConcatAppend(a: seq<string>, b: seq<string>)
    ensures Concat(a + b) == Concat(a) + Concat(b)
    decreases |b|
  {
    if b == [] {
      assert a + b == a;
    } else {
      var front := b[..|b| - 1];
      assert (a + b)[..|a + b| - 1] == a + front;
      ConcatAppend(a, front);
    }
  }

  /** The characters `trim()` removes: every code point up to and including the space. */
  predicate IsTrimmed(c: char)
  {
    c <= ' '
  }

  function TrimLeft(s: string): string
    decreases |s|
  {
    if s != [] && IsTrimmed(s[0]) then TrimLeft(s[1..]) else s
  }

  function TrimRight(s: string): string
    decreases |s|
  {
    if s != [] && IsTrimmed(s[|s| - 1]) then TrimRight(s[..|s| - 1]) else s
  }

  /** `String.trim()`. */
  function Trim(s: string): string
  {
    TrimRight(TrimLeft(s))
  }

  /** `TrimLeft` removes exactly the longest prefix of removable characters. */
  lemma {:induction false} TrimLeftSpec(s: string)
    ensures var r := TrimLeft(s);
      |r| <= |s| && r == s[|s| - |r|..] && (r == [] || !IsTrimmed(r[0])) &&
      forall i :: 0 <= i < |s| - |r| ==> IsTrimmed(s[i])
    decreases |s|
  {
    if s != [] && IsTrimmed(s[0]) {
      TrimLeftSpec(s[1..]);
      var r := TrimLeft(s);
      forall i | 0 <= i < |s| - |r| ensures IsTrimmed(s[i]) {
        if i > 0 { assert s[i] == s[1..][i - 1]; }
      }
    }
  }

  /** `TrimRight` removes exactly the longest suffix of removable characters. */
  lemma {:induction false} TrimRightSpec(s: string)
    ensures var r := TrimRight(s);
      |r| <= |s| && r == s[..|r|] && (r == [] || !IsTrimmed(r[|r| - 1])) &&
      forall i :: |r| <= i < |s| ==> IsTrimmed(s[i])
    decreases |s|
  {
    if s != [] && IsTrimmed(s[|s| - 1]) {
      TrimRightSpec(s[..|s| - 1]);
      var r := TrimRight(s);
      forall i | |r| <= i < |s| ensures IsTrimmed(s[i]) {
        if i < |s| - 1 { assert s[i] == s[..|s| - 1][i]; }
      }
    }
  }

  /**
   * `trim()` keeps a contiguous slice of the string that neither starts nor
   * ends with a removable character, and removes only removable characters
   * around it.
   */
  lemma TrimSpec(s: string)
    ensures exists lo, hi ::
      0 <= lo <= hi <= |s| && Trim(s) == s[lo..hi] &&
      (forall i :: 0 <= i < lo ==> IsTrimmed(s[i])) &&
      (forall i :: hi <= i < |s| ==> IsTrimmed(s[i])) &&
      (Trim(s) == [] || (!IsTrimmed(Trim(s)[0]) && !IsTrimmed(Trim(s)[|Trim(s)| - 1])))
  {
    var l := TrimLeft(s);
    TrimLeftSpec(s);
    TrimRightSpec(l);
    var lo := |s| - |l|;
    var hi := lo + |TrimRight(l)|;
    assert Trim(s) == s[lo..hi];
    forall i | hi <= i < |s| ensures IsTrimmed(s[i]) {
      assert s[i] == l[i - lo];
    }
  }

  /** Leading characters that `trim()` removes do not change its result. */
  lemma {:induction false} TrimSkipsBlankPrefix(blank: string, s: string)
    requires forall i :: 0 <= i < |blank| ==> IsTrimmed(blank[i])
    ensures Trim(blank + s) == Trim(s)
    decreases |blank|
  {
    if blank != [] {
      assert (blank + s)[1..] == blank[1..] + s;
      TrimSkipsBlankPrefix(blank[1..], s);
    } else {
      assert blank + s == s;
    }
  }

  /** A string made only of removable characters trims to the empty string. */
  lemma {:induction false} TrimBlank(blank: string)
    requires forall i :: 0 <= i < |blank| ==> IsTrimmed(blank[i])
    ensures Trim(blank) == []
  {
    TrimSkipsBlankPrefix(blank, []);
    assert blank + [] == blank;
  }

  /** A string that starts and ends with a kept character is its own trim. */
  lemma TrimKeeps(s: string)
    requires s != [] && !IsTrimmed(s[0]) && !IsTrimmed(s[|s| - 1])
    ensures Trim(s) == s
  {
  }

  /** Every piece of `s` between occurrences of `sep`, including empty ones. */
  function Pieces(s: string, sep: char): (ps: seq<string>)
    ensures |ps| >= 1
    decreases |s|
  {
    if s == [] then [[]]
    else
      var rest := Pieces(s[1..], sep);
      if s[0] == sep then [[]] + rest else [[s[0]] + rest[0]] + rest[1..]
  }

  /** A string without the separator is a single piece. */
  lemma {:induction false} PiecesWithoutSep(b: string, sep: char)
    requires sep !in b
    ensures Pieces(b, sep) == [b]
    decreases |b|
  {
    if b != [] {
      PiecesWithoutSep(b[1..], sep);
      assert [b[0]] + b[1..] == b;
    }
  }

  /** A separator-free piece followed by the separator splits off as the first piece. */
  lemma {:induction false} PiecesThroughSep(b: string, sep: char, rest: string)
    requires sep !in b
    ensures Pieces(b + [sep] + rest, sep) == [b] + Pieces(rest, sep)
    decreases |b|
  {
    if b == [] {
      assert b + [sep] + rest == [sep] + rest;
      assert ([sep] + rest)[1..] == rest;
    } else {
      assert (b + [sep] + rest)[1..] == b[1..] + [sep] + rest;
      PiecesThroughSep(b[1..], sep, rest);
      assert [b[0]] + b[1..] == b;
    }
  }

  /** Removes the empty strings at the end, as `split` with limit 0 does. */
  function DropTrailingEmpty(ps: seq<string>): seq<string>
    decreases |ps|
  {
    if ps != [] && ps[|ps| - 1] == [] then DropTrailingEmpty(ps[..|ps| - 1]) else ps
  }

  /** Only empty strings are dropped, only from the end, and all of those at the end. */
  lemma {:induction false} DropTrailingEmptySpec(ps: seq<string>)
    ensures var r := DropTrailingEmpty(ps);
      |r| <= |ps| && r == ps[..|r|] && forall i :: |r| <= i < |ps| ==> ps[i] == []
    ensures var r := DropTrailingEmpty(ps); r == [] || r[|r| - 1] != []
    decreases |ps|
  {
    if ps != [] && ps[|ps| - 1] == [] {
      DropTrailingEmptySpec(ps[..|ps| - 1]);
    }
  }

  /**
   * `s.split(sep)` for a one-character, non-special pattern: with no match the
   * result is `s` itself; otherwise the pieces without their trailing empty strings.
   */
  function Split(s: string, sep: char): seq<string>
  {
    if sep !in s then [s] else DropTrailingEmpty(Pieces(s, sep))
  }
}
