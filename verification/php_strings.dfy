/**
 * The PHP string primitives the thumbnail helper is built from:
 * `explode`, `implode`, `end` and `str_replace` (single pair and the
 * array form), over strings as sequences of characters.
 */
module PhpStrings {

  /** `p` is a prefix of `s`. */
  predicate StartsWith(s: string, p: string) {
    |p| <= |s| && s[..|p|] == p
  }

  /** `pat` occurs in `s` as a contiguous substring. */
  predicate Contains(s: string, pat: string)
    decreases |s|
  {
    StartsWith(s, pat) || (s != [] && Contains(s[1..], pat))
  }

  /**
   * PHP `explode(sep, s)`: the pieces of `s` between the occurrences of
   * `sep`, found left to right; an occurrence consumes its characters, so
   * occurrences never overlap. There is always at least one piece.
   */
  function Explode(sep: string, s: string): (parts: seq<string>)
    requires sep != []
    ensures |parts| >= 1
    decreases |s|
  {
    if StartsWith(s, sep) then [[]] + Explode(sep, s[|sep|..])
    else if s == [] then [[]]
    else
      var rest := Explode(sep, s[1..]);
      [[s[0]] + rest[0]] + rest[1..]
  }

  /** PHP `implode(glue, parts)` on a non-empty list. */
  function Implode(glue: string, parts: seq<string>): string
    requires |parts| >= 1
    decreases |parts|
  {
    if |parts| == 1 then parts[0] else parts[0] + glue + Implode(glue, parts[1..])
  }

  /** PHP `end(xs)`: the last element of a non-empty list. */
  function Last<T>(xs: seq<T>): T
    requires |xs| >= 1
  {
    xs[|xs| - 1]
  }

  /**
   * PHP `str_replace(search, replace, s)` with one search string: a single
   * left-to-right pass that replaces each non-overlapping occurrence and
   * never rescans replaced text. An empty search string leaves `s` alone.
   */
  function StrReplace(s: string, search: string, replace: string): string
    decreases |s|
  {
    if search == [] then s
    else if StartsWith(s, search) then replace + StrReplace(s[|search|..], search, replace)
    else if s == [] then []
    else [s[0]] + StrReplace(s[1..], search, replace)
  }

  /**
   * PHP `str_replace(searches, replacements, s)` with two arrays of equal
   * length: each pair is applied in turn to the output of the previous one.
   */
  function StrReplaceEach(searches: seq<string>, replacements: seq<string>, s: string): string
    requires |searches| == |replacements|
    decreases |searches|
  {
    if searches == [] then s
    else StrReplaceEach(searches[1..], replacements[1..], StrReplace(s, searches[0], replacements[0]))
  }

  // ---------------------------------------------------------------------
  // Substrings

  /** A string shorter than the pattern cannot contain it. */
  lemma {:induction false} ShortNotContains(s: string, pat: string)
    requires |s| < |pat|
    ensures !Contains(s, pat)
  {
    if s != [] {
      ShortNotContains(s[1..], pat);
    }
  }

  /** A pattern whose first character is absent from `s` does not occur in it. */
  lemma {:induction false} FirstCharAbsent(s: string, pat: string)
    requires pat != [] && pat[0] !in s
    ensures !Contains(s, pat)
  {
    if s != [] {
      FirstCharAbsent(s[1..], pat);
    }
  }

  /** A one-character pattern occurs exactly when the character does. */
  lemma {:induction false} ContainsChar(s: string, c: char)
    ensures Contains(s, [c]) <==> c in s
  {
    if s != [] {
      ContainsChar(s[1..], c);
      assert s == [s[0]] + s[1..];
    }
  }

  /** A string that starts with a prefix of `s` and with `sep` makes `s` start with `sep`. */
  lemma PrefixStartsWith(q: string, s: string, sep: string)
    requires q <= s && StartsWith(q, sep)
    ensures StartsWith(s, sep)
  {
    assert s[..|sep|] == q[..|sep|];
  }

  // ---------------------------------------------------------------------
  // explode and implode

  /** Pulling one character onto the first piece pulls it onto the joined string. */
  lemma {:induction false} ImplodePrepend(glue: string, x: string, parts: seq<string>)
    requires |parts| >= 1
    ensures Implode(glue, [x + parts[0]] + parts[1..]) == x + Implode(glue, parts)
  {
    var ps := [x + parts[0]] + parts[1..];
    if |parts| > 1 {
      assert ps[1..] == parts[1..];
    }
  }

  /** An empty first piece contributes only the glue. */
  lemma ImplodeEmptyHead(glue: string, parts: seq<string>)
    requires |parts| >= 1
    ensures Implode(glue, [[]] + parts) == glue + Implode(glue, parts)
  {
    assert ([[]] + parts)[1..] == parts;
  }

  /** Joining a list of two or more splits off the last piece after the glue. */
  lemma {:induction false} ImplodeLast(glue: string, parts: seq<string>)
    requires |parts| >= 2
    ensures Implode(glue, parts) == Implode(glue, parts[..|parts| - 1]) + glue + Last(parts)
  {
    if |parts| > 2 {
      ImplodeLast(glue, parts[1..]);
      assert parts[1..][..|parts| - 2] == parts[..|parts| - 1][1..];
    }
  }

  /** Round trip: joining the pieces of `explode` with the separator gives back `s`. */
  lemma {:induction false} ImplodeExplode(sep: string, s: string)
    requires sep != []
    ensures Implode(sep, Explode(sep, s)) == s
    decreases |s|
  {
    if StartsWith(s, sep) {
      var t := s[|sep|..];
      var parts := Explode(sep, t);
      ImplodeExplode(sep, t);
      assert Explode(sep, s) == [[]] + parts;
      ImplodeEmptyHead(sep, parts);
      assert s == sep + t;
    } else if s != [] {
      var t := s[1..];
      var parts := Explode(sep, t);
      ImplodeExplode(sep, t);
      assert Explode(sep, s) == [[s[0]] + parts[0]] + parts[1..];
      ImplodePrepend(sep, [s[0]], parts);
      assert s == [s[0]] + t;
    }
  }

  /** The first piece of `explode` is a prefix of the input. */
  lemma {:induction false} ExplodeFirstIsPrefix(sep: string, s: string)
    requires sep != []
    ensures Explode(sep, s)[0] <= s
    decreases |s|
  {
    if !StartsWith(s, sep) && s != [] {
      var t := s[1..];
      var parts := Explode(sep, t);
      assert Explode(sep, s) == [[s[0]] + parts[0]] + parts[1..];
      ExplodeFirstIsPrefix(sep, t);
      assert s == [s[0]] + t;
    }
  }

  /**
   * When there is more than one piece, the first piece followed by the
   * separator is a prefix of the input: the split happened right there.
   */
  lemma {:induction false} ExplodeSplitPoint(sep: string, s: string)
    requires sep != []
    requires |Explode(sep, s)| >= 2
    ensures Explode(sep, s)[0] + sep <= s
    decreases |s|
  {
    if StartsWith(s, sep) {
      assert Explode(sep, s)[0] == [];
      assert [] + sep == s[..|sep|];
    } else {
      var t := s[1..];
      var parts := Explode(sep, t);
      ExplodeStep(sep, s);
      ExplodeSplitPoint(sep, t);
      PrefixCons(s[0], parts[0] + sep, t);
      ConsTail(s);
      ConsAssoc(s[0], parts[0], sep);
    }
  }

  /** `explode` on a string that does not start with the separator: its first character joins the first piece. */
  lemma ExplodeStep(sep: string, s: string)
    requires sep != [] && s != [] && !StartsWith(s, sep)
    ensures Explode(sep, s) == [[s[0]] + Explode(sep, s[1..])[0]] + Explode(sep, s[1..])[1..]
  {
  }

  /** Putting an element in front of `x + y` groups either way. */
  lemma ConsAssoc(c: char, x: string, y: string)
    ensures [c] + x + y == [c] + (x + y)
  {
  }

  /** No piece of `explode` contains the separator. */
  lemma {:induction false} ExplodePiecesFree(sep: string, s: string)
    requires sep != []
    ensures forall k :: 0 <= k < |Explode(sep, s)| ==> !Contains(Explode(sep, s)[k], sep)
    decreases |s|
  {
    var parts := Explode(sep, s);
    if StartsWith(s, sep) {
      ExplodePiecesFree(sep, s[|sep|..]);
      ShortNotContains([], sep);
      assert parts[1..] == Explode(sep, s[|sep|..]);
    } else if s == [] {
      ShortNotContains([], sep);
    } else {
      var rest := Explode(sep, s[1..]);
      ExplodePiecesFree(sep, s[1..]);
      ExplodeFirstIsPrefix(sep, s[1..]);
      var first := [s[0]] + rest[0];
      assert first <= s by { assert s == [s[0]] + s[1..]; }
      if StartsWith(first, sep) {
        PrefixStartsWith(first, s, sep);
      }
      assert first[1..] == rest[0];
      assert !Contains(first, sep);
      assert parts[1..] == rest[1..];
    }
  }

  /**
   * The split is the leftmost one: a piece that is followed by a separator
   * has no occurrence of the separator starting inside it, even one that
   * runs on into the separator after it. Together with ImplodeExplode and
   * ExplodePiecesFree this pins down PHP's left-to-right, non-overlapping
   * matching.
   */
  lemma {:induction false} ExplodeLeftmost(sep: string, s: string)
    requires sep != []
    ensures forall k :: 0 <= k < |Explode(sep, s)| - 1 ==>
      !Contains(Explode(sep, s)[k] + sep[..|sep| - 1], sep)
    decreases |s|
  {
    var parts := Explode(sep, s);
    var short := sep[..|sep| - 1];
    if StartsWith(s, sep) {
      var rest := Explode(sep, s[|sep|..]);
      ExplodeLeftmost(sep, s[|sep|..]);
      assert parts == [[]] + rest;
      assert !Contains(parts[0] + short, sep) by {
        assert parts[0] + short == short;
        ShortNotContains(short, sep);
      }
      assert parts[1..] == rest;
    } else if s != [] {
      var rest := Explode(sep, s[1..]);
      ExplodeLeftmost(sep, s[1..]);
      assert parts == [[s[0]] + rest[0]] + rest[1..];
      assert parts[1..] == rest[1..];
      if |rest| >= 2 {
        ExplodeSplitPoint(sep, s[1..]);
        LeftmostStep(sep, s, rest[0]);
      }
    }
  }

  /**
   * The inductive step of ExplodeLeftmost: a first piece that does not
   * start with the separator gains a character in front and stays free of
   * leftmost occurrences.
   */
  lemma LeftmostStep(sep: string, s: string, piece: string)
    requires sep != [] && s != [] && !StartsWith(s, sep)
    requires piece + sep <= s[1..]
    requires !Contains(piece + sep[..|sep| - 1], sep)
    ensures !Contains([s[0]] + piece + sep[..|sep| - 1], sep)
  {
    var head := [s[0]] + piece + sep[..|sep| - 1];
    HeadPrefix(s[0], piece, sep, s[1..]);
    ConsTail(s);
    if StartsWith(head, sep) {
      PrefixStartsWith(head, s, sep);
    }
    ConsRest(s[0], piece, sep[..|sep| - 1]);
    NotContainsCons(head, sep);
  }

  /** Dropping the first element of `[c] + x + y` leaves `x + y`. */
  lemma ConsRest(c: char, x: string, y: string)
    ensures ([c] + x + y)[1..] == x + y
  {
  }

  /** A non-empty sequence is its first element followed by the rest. */
  lemma ConsTail(s: string)
    requires s != []
    ensures s == [s[0]] + s[1..]
  {
  }

  /** A string that neither starts with `pat` nor contains it after its first character does not contain it. */
  lemma NotContainsCons(s: string, pat: string)
    requires s != [] && !StartsWith(s, pat) && !Contains(s[1..], pat)
    ensures !Contains(s, pat)
  {
  }

  /** Cutting the separator's last character keeps a prefix a prefix, with a character in front. */
  lemma HeadPrefix(c: char, piece: string, sep: string, t: string)
    requires sep != [] && piece + sep <= t
    ensures [c] + piece + sep[..|sep| - 1] <= [c] + t
  {
    var short := sep[..|sep| - 1];
    assert piece + short == (piece + sep)[..|piece| + |short|];
    assert piece + short <= t;
    PrefixCons(c, piece + short, t);
    assert [c] + piece + short == [c] + (piece + short);
  }

  /** A prefix stays a prefix with the same character put in front of both. */
  lemma PrefixCons(c: char, x: string, y: string)
    requires x <= y
    ensures [c] + x <= [c] + y
  {
    assert ([c] + y)[..|x| + 1] == [c] + y[..|x|];
  }

  /** A string without the separator explodes into itself alone. */
  lemma {:induction false} ExplodeAbsent(sep: string, s: string)
    requires sep != [] && !Contains(s, sep)
    ensures Explode(sep, s) == [s]
    decreases |s|
  {
    if s != [] {
      ExplodeAbsent(sep, s[1..]);
      assert s == [s[0]] + s[1..];
    }
  }

  /** A string containing the separator explodes into two or more pieces. */
  lemma {:induction false} ExplodePresent(sep: string, s: string)
    requires sep != [] && Contains(s, sep)
    ensures |Explode(sep, s)| >= 2
    decreases |s|
  {
    if !StartsWith(s, sep) {
      ExplodePresent(sep, s[1..]);
    }
  }

  /** Splitting on a one-character separator at its first occurrence. */
  lemma {:induction false} ExplodeAtFirst(c: char, m: string, t: string)
    requires c !in m
    ensures Explode([c], m + [c] + t) == [m] + Explode([c], t)
    decreases |m|
  {
    var s := m + [c] + t;
    if m == [] {
      assert s[1..] == t;
    } else {
      var rest := m[1..] + [c] + t;
      ExplodeAtFirst(c, m[1..], t);
      ConsTail(m);
      ConsShape(m[0], m[1..], [c], t);
      assert s[1..] == rest;
      ExplodeStep([c], s);
      assert Explode([c], rest)[1..] == Explode([c], t);
    }
  }

  // ---------------------------------------------------------------------
  // str_replace

  /**
   * Reference definition of `str_replace`: it is `explode` on the search
   * string followed by `implode` with the replacement.
   */
  lemma {:induction false} StrReplaceIsImplodeExplode(s: string, search: string, replace: string)
    requires search != []
    ensures StrReplace(s, search, replace) == Implode(replace, Explode(search, s))
    decreases |s|
  {
    if StartsWith(s, search) {
      var t := s[|search|..];
      var parts := Explode(search, t);
      StrReplaceIsImplodeExplode(t, search, replace);
      assert Explode(search, s) == [[]] + parts;
      ImplodeEmptyHead(replace, parts);
    } else if s != [] {
      var t := s[1..];
      var parts := Explode(search, t);
      StrReplaceIsImplodeExplode(t, search, replace);
      assert Explode(search, s) == [[s[0]] + parts[0]] + parts[1..];
      ImplodePrepend(replace, [s[0]], parts);
    }
  }

  /** `str_replace` leaves a string without the search string unchanged. */
  lemma StrReplaceAbsent(s: string, search: string, replace: string)
    requires !Contains(s, search)
    ensures StrReplace(s, search, replace) == s
  {
    if search != [] {
      StrReplaceIsImplodeExplode(s, search, replace);
      ExplodeAbsent(search, s);
    }
  }

  /** A string that starts with a non-empty pattern starts with its first character. */
  lemma StartsWithHead(s: string, p: string)
    requires p != []
    ensures StartsWith(s, p) ==> s != [] && s[0] == p[0]
  {
    if StartsWith(s, p) {
      assert s[..|p|][0] == s[0];
    }
  }

  /** A character that cannot start an occurrence is copied through. */
  lemma StrReplaceCons(c: char, t: string, search: string, replace: string)
    requires search != [] && c != search[0]
    ensures StrReplace([c] + t, search, replace) == [c] + StrReplace(t, search, replace)
  {
    var s := [c] + t;
    StartsWithHead(s, search);
    assert s[0] == c && s[1..] == t;
  }

  /** Text that cannot start an occurrence is copied through unchanged. */
  lemma {:induction false} StrReplaceSkip(a: string, b: string, search: string, replace: string)
    requires search != [] && search[0] !in a
    ensures StrReplace(a + b, search, replace) == a + StrReplace(b, search, replace)
    decreases |a|
  {
    if a == [] {
      assert a + b == b;
    } else {
      var rest := a[1..] + b;
      var tail := StrReplace(b, search, replace);
      assert StrReplace(rest, search, replace) == a[1..] + tail by {
        StrReplaceSkip(a[1..], b, search, replace);
      }
      assert StrReplace(a + b, search, replace) == [a[0]] + StrReplace(rest, search, replace) by {
        assert a + b == [a[0]] + rest;
        StrReplaceCons(a[0], rest, search, replace);
      }
      assert [a[0]] + (a[1..] + tail) == a + tail by {
        assert a == [a[0]] + a[1..];
      }
    }
  }

  /** An occurrence at the front is replaced and the scan resumes after it. */
  lemma StrReplaceHit(search: string, b: string, replace: string)
    requires search != []
    ensures StrReplace(search + b, search, replace) == replace + StrReplace(b, search, replace)
  {
    assert (search + b)[..|search|] == search;
    assert (search + b)[|search|..] == b;
  }

  /** A string made of one occurrence and occurrence-free text after it. */
  lemma StrReplaceFront(search: string, b: string, replace: string)
    requires search != [] && !Contains(b, search)
    ensures StrReplace(search + b, search, replace) == replace + b
  {
    StrReplaceHit(search, b, replace);
    StrReplaceAbsent(b, search, replace);
  }

  /** Where no match starts, the first character is copied and the scan moves on. */
  lemma StrReplaceNoMatch(s: string, search: string, replace: string)
    requires search != [] && s != [] && !StartsWith(s, search)
    ensures StrReplace(s, search, replace) == [s[0]] + StrReplace(s[1..], search, replace)
  {
  }

  /**
   * A string whose only occurrence follows a character where no match
   * starts and text that cannot start one.
   */
  lemma StrReplaceAfter(c: char, a: string, search: string, b: string, replace: string)
    requires search != [] && search[0] !in a && !Contains(b, search)
    requires !StartsWith([c] + a + search + b, search)
    ensures StrReplace([c] + a + search + b, search, replace) == [c] + a + replace + b
  {
    ConsShape(c, a, search, b);
    ConsShape(c, a, replace, b);
    StrReplaceNoMatch([c] + a + search + b, search, replace);
    StrReplaceSkip(a, search + b, search, replace);
    StrReplaceFront(search, b, replace);
  }

  /** How a sequence built as `[c] + a + x + y` splits at its first element. */
  lemma ConsShape<T>(c: T, a: seq<T>, x: seq<T>, y: seq<T>)
    ensures [c] + a + x + y != []
    ensures ([c] + a + x + y)[0] == c
    ensures ([c] + a + x + y)[1..] == a + (x + y)
    ensures [c] + (a + (x + y)) == [c] + a + x + y
  {
  }

  /**
   * Appending a character that is not part of the search string appends it
   * to the result: no occurrence can end on it.
   */
  lemma {:induction false} StrReplaceAppend(s: string, c: char, search: string, replace: string)
    requires c !in search
    ensures StrReplace(s + [c], search, replace) == StrReplace(s, search, replace) + [c]
    decreases |s|
  {
    if search != [] {
      var t := s + [c];
      if StartsWith(t, search) {
        assert c in t && search == t[..|search|];
        assert s[..|search|] == t[..|search|];
        assert t[|search|..] == s[|search|..] + [c];
        StrReplaceAppend(s[|search|..], c, search, replace);
      } else if s == [] {
        assert t == [c];
        assert search[0] != c;
        assert StrReplace(t[1..], search, replace) == [];
      } else {
        assert s <= t;
        if StartsWith(s, search) {
          PrefixStartsWith(s, t, search);
        }
        assert t[1..] == s[1..] + [c];
        StrReplaceAppend(s[1..], c, search, replace);
      }
    }
  }

  /** The array form with two pairs is two single replacements, in order. */
  lemma StrReplaceEachPair(a: string, x: string, b: string, y: string, s: string)
    ensures StrReplaceEach([a, b], [x, y], s) == StrReplace(StrReplace(s, a, x), b, y)
  {
    var once := StrReplace(s, a, x);
    assert [a, b][1..] == [b] && [x, y][1..] == [y];
    assert StrReplaceEach([a, b], [x, y], s) == StrReplaceEach([b], [y], once);
    assert [b][1..] == [] && [y][1..] == [];
    assert StrReplaceEach([b], [y], once) == StrReplaceEach([], [], StrReplace(once, b, y));
  }

  /**
   * The array form over two search lists run back to back is the array form
   * over the second list applied to the output of the first: a search
   * string sees the output of every pair before it, never the original.
   */
  lemma {:induction false} StrReplaceEachConcat(searches1: seq<string>, replacements1: seq<string>,
                                                searches2: seq<string>, replacements2: seq<string>, s: string)
    requires |searches1| == |replacements1| && |searches2| == |replacements2|
    ensures StrReplaceEach(searches1 + searches2, replacements1 + replacements2, s) ==
      StrReplaceEach(searches2, replacements2, StrReplaceEach(searches1, replacements1, s))
    decreases |searches1|
  {
    if searches1 == [] {
      assert searches1 + searches2 == searches2 && replacements1 + replacements2 == replacements2;
    } else {
      var once := StrReplace(s, searches1[0], replacements1[0]);
      assert (searches1 + searches2)[1..] == searches1[1..] + searches2;
      assert (replacements1 + replacements2)[1..] == replacements1[1..] + replacements2;
      StrReplaceEachConcat(searches1[1..], replacements1[1..], searches2, replacements2, once);
    }
  }
}
