/** The few JavaScript string operations the kiosk relies on: `trim`, `split` on
    one character, `includes`, and the quote-stripping `replace(/['"]/g, '')`. */
module JsString {

  /** The characters `String.prototype.trim` removes: the ECMAScript WhiteSpace
      and LineTerminator code points (Unicode category Zs plus TAB, VT, FF,
      ZWNBSP, LF, CR, LS and PS). */
  predicate IsSpace(c: char) {
    c == '\t' || c == '\n' || c == '\U{000B}' || c == '\U{000C}' || c == '\r'
    || c == ' ' || c == '\U{00A0}' || c == '\U{1680}'
    || ('\U{2000}' <= c <= '\U{200A}')
    || c == '\U{2028}' || c == '\U{2029}' || c == '\U{202F}' || c == '\U{205F}'
    || c == '\U{3000}' || c == '\U{FEFF}'
  }

  /** Number of leading whitespace characters. */
  function LeadingSpaces(s: string): (k: nat)
    ensures k <= |s|
    ensures forall i :: 0 <= i < k ==> IsSpace(s[i])
    ensures k < |s| ==> !IsSpace(s[k])
    decreases |s|
  {
    if |s| > 0 && IsSpace(s[0]) then 1 + LeadingSpaces(s[1..]) else 0
  }

  /** Index just past the last non-whitespace character. */
  function ContentEnd(s: string): (k: nat)
    ensures k <= |s|
    ensures forall i :: k <= i < |s| ==> IsSpace(s[i])
    ensures k > 0 ==> !IsSpace(s[k - 1])
    decreases |s|
  {
    if |s| > 0 && IsSpace(s[|s| - 1]) then ContentEnd(s[..|s| - 1]) else |s|
  }

  /** `r` is `s` with a run of whitespace removed at each end and no whitespace
      left at either end: what `s.trim()` returns. */
  ghost predicate IsTrimOf(r: string, s: string) {
    && (r == [] || (!IsSpace(r[0]) && !IsSpace(r[|r| - 1])))
    && exists i :: TrimmedAt(r, s, i)
  }

  ghost predicate TrimmedAt(r: string, s: string, i: int) {
    && 0 <= i && i + |r| <= |s|
    && r == s[i..i + |r|]
    && (forall k :: 0 <= k < i ==> IsSpace(s[k]))
    && (forall k :: i + |r| <= k < |s| ==> IsSpace(s[k]))
  }

  /** JavaScript `s.trim()`. */
  function Trim(s: string): (r: string)
    ensures |r| <= |s|
    ensures r == [] || (!IsSpace(r[0]) && !IsSpace(r[|r| - 1]))
  {
    var t := s[LeadingSpaces(s)..];
    t[..ContentEnd(t)]
  }

  /** `Trim` meets the description of a trim, and keeps only characters of
      its argument. */
  lemma TrimSpec(s: string)
    ensures IsTrimOf(Trim(s), s)
    ensures forall c :: c in Trim(s) ==> c in s
  {
    assert TrimmedAt(Trim(s), s, LeadingSpaces(s));
  }

  /** A trim is empty exactly when the whole string is whitespace. */
  lemma TrimEmptyIffBlank(r: string, s: string, i: int)
    requires TrimmedAt(r, s, i)
    requires r == [] || !IsSpace(r[0])
    ensures r == [] <==> forall k :: 0 <= k < |s| ==> IsSpace(s[k])
  {
    if r != [] {
      assert s[i] == r[0];
    }
  }

  /** The trim of a string is unique: any `r` meeting the description of
      `IsTrimOf` is the one `Trim` computes. */
  lemma TrimUnique(r: string, s: string)
    requires IsTrimOf(r, s)
    ensures r == Trim(s)
  {
    var i :| TrimmedAt(r, s, i);
    var t := Trim(s);
    TrimSpec(s);
    var j :| TrimmedAt(t, s, j);
    TrimEmptyIffBlank(r, s, i);
    TrimEmptyIffBlank(t, s, j);
    if r != [] && t != [] {
      TrimSameSlice(r, t, s, i, j);
    }
  }

  /** Two non-empty slices with only whitespace around them and none at
      their ends are the same slice. */
  lemma TrimSameSlice(r: string, t: string, s: string, i: int, j: int)
    requires TrimmedAt(r, s, i) && TrimmedAt(t, s, j)
    requires r != [] && !IsSpace(r[0]) && !IsSpace(r[|r| - 1])
    requires t != [] && !IsSpace(t[0]) && !IsSpace(t[|t| - 1])
    ensures r == t
  {
    assert s[i] == r[0] && s[j] == t[0];
    assert i == j;
    assert s[i + |r| - 1] == r[|r| - 1] && s[j + |t| - 1] == t[|t| - 1];
    assert |r| == |t|;
  }

  /** Trimming twice is trimming once. */
  lemma TrimIdempotent(s: string)
    ensures Trim(Trim(s)) == Trim(s)
  {
    var r := Trim(s);
    assert TrimmedAt(r, r, 0);
    TrimUnique(r, r);
  }

  /** A string with no whitespace at either end is its own trim. */
  lemma TrimUnchanged(s: string)
    requires s == [] || (!IsSpace(s[0]) && !IsSpace(s[|s| - 1]))
    ensures Trim(s) == s
  {
    assert TrimmedAt(s, s, 0);
    TrimUnique(s, s);
  }

  /** `s.trim() === ''` holds exactly when every character of `s` is whitespace. */
  predicate IsBlank(s: string)
    ensures IsBlank(s) <==> forall i :: 0 <= i < |s| ==> IsSpace(s[i])
  {
    var r := Trim(s);
    assert r != [] ==> exists i :: 0 <= i < |s| && !IsSpace(s[i]) by {
      TrimSpec(s);
      if r != [] {
        var i :| TrimmedAt(r, s, i);
        assert s[i] == r[0];
      }
    }
    r == []
  }

  /** Number of occurrences of `c` in `s`. */
  function Count(s: string, c: char): (n: nat)
    ensures n <= |s|
    ensures n == 0 <==> c !in s
    decreases |s|
  {
    if |s| == 0 then 0
    else Count(s[..|s| - 1], c) + (if s[|s| - 1] == c then 1 else 0)
  }

  /** JavaScript `s.split(sep)` for a one-character separator: the pieces of `s`
      between separators, left to right (never empty: `"".split(sep)` is `[""]`). */
  function Split(s: string, sep: char): (pieces: seq<string>)
    ensures |pieces| == 1 + Count(s, sep)
    ensures forall k :: 0 <= k < |pieces| ==> sep !in pieces[k]
    decreases |s|
  {
    if |s| == 0 then [""]
    else
      var init := Split(s[..|s| - 1], sep);
      var c := s[|s| - 1];
      if c == sep then init + [""]
      else init[..|init| - 1] + [init[|init| - 1] + [c]]
  }

  /** JavaScript `pieces.join(sep)`, the inverse of `Split`. */
  function Join(pieces: seq<string>, sep: char): string
    requires |pieces| >= 1
  {
    if |pieces| == 1 then pieces[0]
    else Join(pieces[..|pieces| - 1], sep) + [sep] + pieces[|pieces| - 1]
  }

  lemma JoinSnoc(pieces: seq<string>, x: string, sep: char)
    requires |pieces| >= 1
    ensures Join(pieces + [x], sep) == Join(pieces, sep) + [sep] + x
  {
    assert (pieces + [x])[..|pieces|] == pieces;
  }

  /** Extending the last piece extends the joined string. */
  lemma JoinExtendLast(pieces: seq<string>, y: string, sep: char)
    requires |pieces| >= 1
    ensures var n := |pieces|;
            Join(pieces[..n - 1] + [pieces[n - 1] + y], sep) == Join(pieces, sep) + y
  {
    var n := |pieces|;
    if n > 1 {
      var init := pieces[..n - 1];
      JoinSnoc(init, pieces[n - 1] + y, sep);
      assert pieces == init + [pieces[n - 1]];
      JoinSnoc(init, pieces[n - 1], sep);
    }
  }

  /** Joining the pieces again restores the split string. */
  lemma {:induction false} JoinSplit(s: string, sep: char)
    ensures Join(Split(s, sep), sep) == s
    decreases |s|
  {
    if |s| > 0 {
      var s' := s[..|s| - 1];
      var c := s[|s| - 1];
      assert s == s' + [c];
      var init := Split(s', sep);
      JoinSplit(s', sep);
      if c == sep {
        JoinSnoc(init, "", sep);
      } else {
        JoinExtendLast(init, [c], sep);
      }
    }
  }

  /** Appending one non-separator character extends the last piece. */
  lemma SplitSnoc(x: string, c: char, sep: char)
    requires c != sep
    ensures var init := Split(x, sep);
            Split(x + [c], sep) == init[..|init| - 1] + [init[|init| - 1] + [c]]
  {
    assert (x + [c])[..|x|] == x;
  }

  /** Appending a separator starts a new, empty piece. */
  lemma SplitSnocSep(x: string, sep: char)
    ensures Split(x + [sep], sep) == Split(x, sep) + [""]
  {
    assert (x + [sep])[..|x|] == x;
  }

  /** Splitting a string that ends with a piece free of separators. */
  lemma {:induction false} SplitAppendPiece(a: string, b: string, sep: char)
    requires sep !in b
    ensures var init := Split(a, sep);
            Split(a + b, sep) == init[..|init| - 1] + [init[|init| - 1] + b]
    decreases |b|
  {
    var init := Split(a, sep);
    var n := |init|;
    if |b| == 0 {
      assert a + b == a;
      assert init[n - 1] + b == init[n - 1];
      assert init[..n - 1] + [init[n - 1]] == init;
    } else {
      var b' := b[..|b| - 1];
      var c := b[|b| - 1];
      var mid := init[..n - 1] + [init[n - 1] + b'];
      calc {
        Split(a + b, sep);
      == { assert a + b == (a + b') + [c];
           SplitAppendPiece(a, b', sep);
           SplitSnoc(a + b', c, sep); }
        mid[..n - 1] + [mid[n - 1] + [c]];
      == { assert mid[..n - 1] == init[..n - 1];
           assert mid[n - 1] + [c] == init[n - 1] + b; }
        init[..n - 1] + [init[n - 1] + b];
      }
    }
  }

  /** Splitting joined separator-free pieces gives the pieces back. */
  lemma {:induction false} SplitJoin(pieces: seq<string>, sep: char)
    requires |pieces| >= 1
    requires forall k :: 0 <= k < |pieces| ==> sep !in pieces[k]
    ensures Split(Join(pieces, sep), sep) == pieces
    decreases |pieces|
  {
    var last := pieces[|pieces| - 1];
    if |pieces| == 1 {
      SplitAppendPiece([], last, sep);
      assert [] + last == last;
    } else {
      var init := pieces[..|pieces| - 1];
      var a := Join(init, sep) + [sep];
      var split := init + [""];
      calc {
        Split(Join(pieces, sep), sep);
      == { assert Join(pieces, sep) == a + last; }
        Split(a + last, sep);
      == { SplitAppendPiece(a, last, sep);
           assert Split(a, sep) == split by {
             assert a[..|a| - 1] == Join(init, sep);
             SplitJoin(init, sep);
           } }
        split[..|init|] + [split[|init|] + last];
      == { assert split[..|init|] == init;
           assert split[|init|] + last == last;
           assert pieces == init + [last]; }
        pieces;
      }
    }
  }

  /** `t` occurs in `s` starting at index `p`. */
  ghost predicate OccursAt(s: string, t: string, p: int) {
    0 <= p && p + |t| <= |s| && s[p..p + |t|] == t
  }

  /** JavaScript `s.includes(t)`. */
  function Contains(s: string, t: string): (b: bool)
    ensures b <==> exists p :: OccursAt(s, t, p)
    decreases |s|
  {
    if |s| < |t| then false
    else if s[..|t|] == t then assert OccursAt(s, t, 0); true
    else
      var b := Contains(s[1..], t);
      if b then
        assert forall p :: OccursAt(s[1..], t, p) ==> OccursAt(s, t, p + 1) by {
          forall p | OccursAt(s[1..], t, p) ensures OccursAt(s, t, p + 1) {
            assert s[1..][p..p + |t|] == s[p + 1..p + 1 + |t|];
          }
        }
        b
      else
        assert forall p :: OccursAt(s, t, p) ==> OccursAt(s[1..], t, p - 1) by {
          forall p | OccursAt(s, t, p) ensures OccursAt(s[1..], t, p - 1) {
            assert p != 0;
            assert s[1..][p - 1..p - 1 + |t|] == s[p..p + |t|];
          }
        }
        b
  }

  predicate IsQuote(c: char) {
    c == '\'' || c == '"'
  }

  /** JavaScript `s.replace(/['"]/g, '')`: every single and double quote removed,
      every other character kept in order. */
  function RemoveQuotes(s: string): (r: string)
    ensures forall c :: c in r ==> c in s && !IsQuote(c)
    decreases |s|
  {
    if |s| == 0 then []
    else
      var init := RemoveQuotes(s[..|s| - 1]);
      var c := s[|s| - 1];
      assert s == s[..|s| - 1] + [c];
      if IsQuote(c) then init else init + [c]
  }

  /** One character is dropped when it is a quote and kept otherwise. */
  lemma RemoveQuotesChar(c: char)
    ensures RemoveQuotes([c]) == if IsQuote(c) then [] else [c]
  {
    assert [c][..0] == [];
  }

  /** Dropping the last character of `a + b`, for a non-empty `b`, drops
      the last character of `b`. */
  lemma DropLastAppend(a: string, b: string)
    requires |b| > 0
    ensures (a + b)[..|a + b| - 1] == a + b[..|b| - 1]
    ensures (a + b)[|a + b| - 1] == b[|b| - 1]
  {
  }

  /** Quote removal works piece by piece, so the kept characters stay in
      their order; with `RemoveQuotesChar` this determines the result. */
  lemma {:induction false} RemoveQuotesAppend(a: string, b: string)
    ensures RemoveQuotes(a + b) == RemoveQuotes(a) + RemoveQuotes(b)
    decreases |b|
  {
    if |b| == 0 {
      assert a + b == a;
    } else {
      RemoveQuotesAppend(a, b[..|b| - 1]);
      RemoveQuotesAppendStep(a, b);
    }
  }

  /** The inductive step of `RemoveQuotesAppend`: the last character of `b`
      is handled last on both sides. */
  lemma RemoveQuotesAppendStep(a: string, b: string)
    requires |b| > 0
    requires RemoveQuotes(a + b[..|b| - 1]) == RemoveQuotes(a) + RemoveQuotes(b[..|b| - 1])
    ensures RemoveQuotes(a + b) == RemoveQuotes(a) + RemoveQuotes(b)
  {
    var b', c := b[..|b| - 1], b[|b| - 1];
    var ra, rb', t := RemoveQuotes(a), RemoveQuotes(b'), if IsQuote(c) then [] else [c];
    DropLastAppend(a, b);
    assert RemoveQuotes(a + b) == RemoveQuotes(a + b') + t;
    assert RemoveQuotes(b) == rb' + t;
    ConcatAssoc(ra, rb', t);
  }

  /** String concatenation is associative. */
  lemma ConcatAssoc(x: string, y: string, z: string)
    ensures (x + y) + z == x + (y + z)
  {
  }

  /** Every character other than a quote occurs as often after quote
      removal as before. */
  lemma {:induction false} RemoveQuotesCounts(s: string)
    ensures forall c :: !IsQuote(c) ==> multiset(RemoveQuotes(s))[c] == multiset(s)[c]
    decreases |s|
  {
    if |s| > 0 {
      var init, last := s[..|s| - 1], s[|s| - 1];
      RemoveQuotesCounts(init);
      assert s == init + [last];
    }
  }

  /** Removing quotes from a string that has none changes nothing. */
  lemma {:induction false} RemoveQuotesNone(s: string)
    requires forall i :: 0 <= i < |s| ==> !IsQuote(s[i])
    ensures RemoveQuotes(s) == s
    decreases |s|
  {
    if |s| > 0 {
      RemoveQuotesNone(s[..|s| - 1]);
      assert s == s[..|s| - 1] + [s[|s| - 1]];
    }
  }
}
