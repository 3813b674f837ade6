/**
 * The text of `/proc/self/maps` and the C string routines the memory-map reader
 * runs over it: splitting the buffer into lines with `strtok(.., "\n")`,
 * cutting a line at `-` and at ` ` with `strtok`, and reading a base-16 number
 * with `strtoul(.., 16)`.  Everything here is a pure function of the text.
 */
module MapsText {
  import opened Common

  // ---------------------------------------------------------------------------
  // Scanning helpers

  /** Index of the first `c` in `s`, or `|s|` when `s` holds none. */
  function IndexOf(s: seq<char>, c: char): (r: nat)
    ensures r <= |s|
    ensures forall j :: 0 <= j < r ==> s[j] != c
    ensures r < |s| ==> s[r] == c
  {
    if s == [] || s[0] == c then 0 else 1 + IndexOf(s[1..], c)
  }

  /** A first occurrence found by scanning is the one `IndexOf` gives. */
  lemma IndexOfIs(s: seq<char>, c: char, e: nat)
    requires e <= |s| && forall j :: 0 <= j < e ==> s[j] != c
    requires e < |s| ==> s[e] == c
    ensures IndexOf(s, c) == e
  {
  }

  /** Number of `c`s at the front of `s`. */
  function LeadingCount(s: seq<char>, c: char): (r: nat)
    ensures r <= |s|
    ensures forall j :: 0 <= j < r ==> s[j] == c
    ensures r < |s| ==> s[r] != c
  {
    if s == [] || s[0] != c then 0 else 1 + LeadingCount(s[1..], c)
  }

  /** A first occurrence found in `b` behind a prefix `a` free of `c`. */
  lemma IndexOfAppend(a: seq<char>, b: seq<char>, c: char)
    requires c !in a
    ensures IndexOf(a + b, c) == |a| + IndexOf(b, c)
  {
    var i, j := IndexOf(a + b, c), IndexOf(b, c);
    forall k | 0 <= k < |a| + j ensures (a + b)[k] != c {
      if k >= |a| { assert (a + b)[k] == b[k - |a|]; }
    }
    if |a| + j < |a + b| { assert (a + b)[|a| + j] == b[j]; }
  }

  /** The string a C routine sees in a NUL-terminated buffer holding `text`:
      everything before the first NUL character. */
  function CString(text: seq<char>): (s: seq<char>)
    ensures s <= text && '\0' !in s
    ensures |s| < |text| ==> text[|s|] == '\0'
  {
    text[..IndexOf(text, '\0')]
  }

  // ---------------------------------------------------------------------------
  // Lines

  /** First position at or after `p` that is not a newline (or the end). */
  function SkipNewlines(s: seq<char>, p: nat): (k: nat)
    requires p <= |s|
    ensures p <= k <= |s|
    ensures forall j :: p <= j < k ==> s[j] == '\n'
    ensures k < |s| ==> s[k] != '\n'
    decreases |s| - p
  {
    if p == |s| || s[p] != '\n' then p else SkipNewlines(s, p + 1)
  }

  /** First position at or after `p` that is a newline (or the end). */
  function LineEnd(s: seq<char>, p: nat): (e: nat)
    requires p <= |s|
    ensures p <= e <= |s|
    ensures forall j :: p <= j < e ==> s[j] != '\n'
    ensures e < |s| ==> s[e] == '\n'
    decreases |s| - p
  {
    if p == |s| || s[p] == '\n' then p else LineEnd(s, p + 1)
  }

  /** A run of newlines found by scanning ends where `SkipNewlines` says. */
  lemma {:induction false} SkipNewlinesIs(s: seq<char>, p: nat, k: nat)
    requires p <= k <= |s|
    requires forall j :: p <= j < k ==> s[j] == '\n'
    requires k < |s| ==> s[k] != '\n'
    ensures SkipNewlines(s, p) == k
    decreases k - p
  {
    if p < k {
      SkipNewlinesIs(s, p + 1, k);
    }
  }

  /** A line found by scanning ends where `LineEnd` says. */
  lemma {:induction false} LineEndIs(s: seq<char>, p: nat, e: nat)
    requires p <= e <= |s|
    requires forall j :: p <= j < e ==> s[j] != '\n'
    requires e < |s| ==> s[e] == '\n'
    ensures LineEnd(s, p) == e
    decreases e - p
  {
    if p < e {
      LineEndIs(s, p + 1, e);
    }
  }

  /**
   * The pieces the reader parses from position `p` on, one per
   * `strtok(.., "\n")` token.  The first pass turns the newline that ends each
   * token into a NUL; the second pass walks from one NUL to the next, so each
   * piece is a token together with the run of further newlines that came
   * before it (blank lines are skipped, not removed).
   */
  function SplitFrom(s: seq<char>, p: nat): (r: seq<seq<char>>)
    requires p <= |s|
    ensures |r| <= |s| - p
    decreases |s| - p
  {
    var k := SkipNewlines(s, p);
    if k == |s| then []
    else
      var e := LineEnd(s, k);
      [s[p..e]] + (if e == |s| then [] else SplitFrom(s, e + 1))
  }

  /** The pieces of a whole text. */
  function SplitLines(s: seq<char>): (r: seq<seq<char>>)
    ensures |r| <= |s|
  {
    SplitFrom(s, 0)
  }

  /** The piece the reader's second pass finds by scanning from `p`: newlines
      up to `k`, then a token up to `e`; behind it the walk resumes at `e + 1`. */
  lemma PieceStep(s: seq<char>, p: nat, k: nat, e: nat)
    requires p <= k < e <= |s|
    requires forall j :: p <= j < k ==> s[j] == '\n'
    requires forall j :: k <= j < e ==> s[j] != '\n'
    requires e < |s| ==> s[e] == '\n'
    ensures SplitFrom(s, p) == [s[p..e]] + (if e == |s| then [] else SplitFrom(s, e + 1))
  {
    SkipNewlinesIs(s, p, k);
    LineEndIs(s, k, e);
  }

  /** Nothing but newlines from `p` on: no piece is left. */
  lemma NoPieceLeft(s: seq<char>, p: nat)
    requires p <= |s| && forall j :: p <= j < |s| ==> s[j] == '\n'
    ensures SplitFrom(s, p) == []
  {
    SkipNewlinesIs(s, p, |s|);
  }

  /** Reference definition: `s` from `p` on, cut at every newline (empty
      fields included). */
  function FieldsFrom(s: seq<char>, p: nat): seq<seq<char>>
    requires p <= |s|
    decreases |s| - p
  {
    var e := LineEnd(s, p);
    [s[p..e]] + (if e == |s| then [] else FieldsFrom(s, e + 1))
  }

  /** The non-empty members of `ls`, in order. */
  function NonEmpty(ls: seq<seq<char>>): seq<seq<char>>
  {
    if ls == [] then [] else (if ls[0] == [] then [] else [ls[0]]) + NonEmpty(ls[1..])
  }

  /** Reference definition: the non-empty newline-separated lines of `s`. */
  function NonEmptyLines(s: seq<char>): seq<seq<char>>
  {
    NonEmpty(FieldsFrom(s, 0))
  }

  /** A piece without the newlines in front of it. */
  function StripNewlines(piece: seq<char>): seq<char>
  {
    piece[SkipNewlines(piece, 0)..]
  }

  function StripAll(pieces: seq<seq<char>>): (r: seq<seq<char>>)
    ensures |r| == |pieces|
  {
    if pieces == [] then [] else [StripNewlines(pieces[0])] + StripAll(pieces[1..])
  }

  lemma NonEmptyCons(x: seq<char>, ls: seq<seq<char>>)
    ensures NonEmpty([x] + ls) == (if x == [] then [] else [x]) + NonEmpty(ls)
  {
    assert ([x] + ls)[1..] == ls;
  }

  lemma StripAllCons(x: seq<char>, ls: seq<seq<char>>)
    ensures StripAll([x] + ls) == [StripNewlines(x)] + StripAll(ls)
  {
    assert ([x] + ls)[1..] == ls;
  }

  /** A newline at `p` only lengthens the piece that follows it. */
  lemma SplitFromNewline(s: seq<char>, p: nat)
    requires p < |s| && s[p] == '\n'
    ensures StripAll(SplitFrom(s, p)) == StripAll(SplitFrom(s, p + 1))
    ensures |SplitFrom(s, p)| == |SplitFrom(s, p + 1)|
  {
    var k := SkipNewlines(s, p + 1);
    SkipNewlinesIs(s, p, k);
    if k == |s| {
      NoPieceLeft(s, p);
      NoPieceLeft(s, p + 1);
    } else {
      var e := LineEnd(s, k);
      PieceStep(s, p, k, e);
      PieceStep(s, p + 1, k, e);
      StripOneNewline(s, p, k, e);
      StripAllSameFirst(s[p..e], s[p + 1..e], if e == |s| then [] else SplitFrom(s, e + 1));
    }
  }

  /** Stripping a piece drops all the newlines in front of it, however many. */
  lemma StripOneNewline(s: seq<char>, p: nat, k: nat, e: nat)
    requires p < k <= e <= |s| && forall j :: p <= j < k ==> s[j] == '\n'
    requires k < e ==> s[k] != '\n'
    ensures StripNewlines(s[p..e]) == StripNewlines(s[p + 1..e])
  {
    var a, b := s[p..e], s[p + 1..e];
    SkipNewlinesIs(a, 0, k - p);
    SkipNewlinesIs(b, 0, k - p - 1);
    assert a[k - p..] == s[k..e] == b[k - p - 1..];
  }

  lemma StripAllSameFirst(a: seq<char>, b: seq<char>, tail: seq<seq<char>>)
    requires StripNewlines(a) == StripNewlines(b)
    ensures StripAll([a] + tail) == StripAll([b] + tail)
  {
    StripAllCons(a, tail);
    StripAllCons(b, tail);
  }

  /** A line that does not start with a newline is its own piece. */
  lemma StripLine(s: seq<char>, p: nat, e: nat)
    requires p < e <= |s| && s[p] != '\n'
    ensures StripNewlines(s[p..e]) == s[p..e]
  {
    var a := s[p..e];
    SkipNewlinesIs(a, 0, 0);
  }

  /** A line that starts at `p` with something other than a newline is the
      next piece, with nothing to strip ... */
  lemma PieceAtLine(s: seq<char>, p: nat, e: nat)
    requires p < |s| && s[p] != '\n' && e == LineEnd(s, p)
    ensures StripAll(SplitFrom(s, p)) == [s[p..e]] + StripAll(if e == |s| then [] else SplitFrom(s, e + 1))
  {
    PieceStep(s, p, p, e);
    StripAllCons(s[p..e], if e == |s| then [] else SplitFrom(s, e + 1));
    StripLine(s, p, e);
  }

  /** ... and the next non-empty field. */
  lemma FieldAtLine(s: seq<char>, p: nat, e: nat)
    requires p < |s| && s[p] != '\n' && e == LineEnd(s, p)
    ensures NonEmpty(FieldsFrom(s, p)) == [s[p..e]] + NonEmpty(if e == |s| then [] else FieldsFrom(s, e + 1))
  {
    assert FieldsFrom(s, p) == [s[p..e]] + (if e == |s| then [] else FieldsFrom(s, e + 1));
    NonEmptyCons(s[p..e], if e == |s| then [] else FieldsFrom(s, e + 1));
    assert s[p..e] != [] by { assert s[p..e][0] == s[p]; }
  }

  /** A newline at `p` is an empty field. */
  lemma EmptyFieldAt(s: seq<char>, p: nat)
    requires p < |s| && s[p] == '\n'
    ensures NonEmpty(FieldsFrom(s, p)) == NonEmpty(FieldsFrom(s, p + 1))
  {
    assert LineEnd(s, p) == p;
    assert s[p..p] == [];
    assert FieldsFrom(s, p) == [[]] + FieldsFrom(s, p + 1);
    NonEmptyCons([], FieldsFrom(s, p + 1));
  }

  /** From `p` on, the pieces stripped of their leading newlines are the
      non-empty lines. */
  lemma {:induction false} SplitFromAreNonEmptyLines(s: seq<char>, p: nat)
    requires p <= |s|
    ensures StripAll(SplitFrom(s, p)) == NonEmpty(FieldsFrom(s, p))
    decreases |s| - p
  {
    if p == |s| {
      assert SplitFrom(s, p) == [];
      assert FieldsFrom(s, p) == [[]];
      NonEmptyCons([], []);
    } else if s[p] == '\n' {
      SplitFromNewline(s, p);
      EmptyFieldAt(s, p);
      SplitFromAreNonEmptyLines(s, p + 1);
    } else {
      var e := LineEnd(s, p);
      PieceAtLine(s, p, e);
      FieldAtLine(s, p, e);
      if e < |s| {
        SplitFromAreNonEmptyLines(s, e + 1);
      }
    }
  }

  /** The pieces the reader parses are exactly the non-empty lines of the
      text, each perhaps behind newlines; in particular there are as many
      records as non-empty lines, and runs of newlines add none. */
  lemma SplitLinesAreNonEmptyLines(s: seq<char>)
    ensures StripAll(SplitLines(s)) == NonEmptyLines(s)
    ensures |SplitLines(s)| == |NonEmptyLines(s)|
  {
    SplitFromAreNonEmptyLines(s, 0);
  }

  /** Lines joined the way the kernel writes them: each one followed by a newline. */
  function JoinLines(lines: seq<seq<char>>): seq<char>
  {
    if lines == [] then [] else lines[0] + ['\n'] + JoinLines(lines[1..])
  }

  lemma ConsTail<T>(xs: seq<T>)
    requires xs != []
    ensures xs == [xs[0]] + xs[1..]
  {
  }

  /** A line the splitter keeps whole: non-empty and without a newline. */
  ghost predicate PlainLine(l: seq<char>)
  {
    l != [] && forall j :: 0 <= j < |l| ==> l[j] != '\n'
  }

  /** `lines` lie in `s` from `p` on, each followed by a newline, up to the end. */
  ghost predicate JoinedAt(s: seq<char>, p: nat, lines: seq<seq<char>>)
    requires p <= |s|
    decreases lines
  {
    if lines == [] then p == |s|
    else
      var e := p + |lines[0]|;
      && e < |s| && s[p..e] == lines[0] && s[e] == '\n'
      && JoinedAt(s, e + 1, lines[1..])
  }

  /** A text holding the join of `lines` from `p` on holds them where `JoinedAt` says. */
  lemma {:induction false} JoinLinesAt(s: seq<char>, p: nat, lines: seq<seq<char>>)
    requires p <= |s| && s[p..] == JoinLines(lines)
    ensures JoinedAt(s, p, lines)
    decreases lines
  {
    if lines != [] {
      var l, rest := lines[0], lines[1..];
      var e := p + |l|;
      assert s[p..] == l + (['\n'] + JoinLines(rest));
      assert s[p..][|l|] == s[e];
      assert s[p..e] == s[p..][..|l|];
      assert s[e + 1..] == s[p..][|l| + 1..];
      JoinLinesAt(s, e + 1, rest);
    }
  }

  /** Splitting from `p` gives back lines joined there when every line is
      non-empty and newline-free. */
  lemma {:induction false} SplitFromJoined(s: seq<char>, p: nat, lines: seq<seq<char>>)
    requires p <= |s| && JoinedAt(s, p, lines)
    requires forall i :: 0 <= i < |lines| ==> PlainLine(lines[i])
    ensures SplitFrom(s, p) == lines
    decreases lines
  {
    if lines == [] {
      NoPieceLeft(s, p);
    } else {
      var l, rest := lines[0], lines[1..];
      var e := p + |l|;
      assert forall i :: 0 <= i < |rest| ==> PlainLine(rest[i]) by {
        forall i | 0 <= i < |rest| ensures PlainLine(rest[i]) {
          assert rest[i] == lines[i + 1];
        }
      }
      SplitFromJoined(s, e + 1, rest);
      assert forall j :: p <= j < e ==> s[j] != '\n' by {
        assert PlainLine(l);
        forall j | p <= j < e ensures s[j] != '\n' {
          assert s[p..e][j - p] == s[j];
        }
      }
      PieceStep(s, p, p, e);
      ConsTail(lines);
    }
  }

  /** Splitting undoes joining when every line is non-empty and newline-free. */
  lemma SplitJoinLines(lines: seq<seq<char>>)
    requires forall i :: 0 <= i < |lines| ==> PlainLine(lines[i])
    ensures SplitLines(JoinLines(lines)) == lines
  {
    var s := JoinLines(lines);
    assert s[0..] == s;
    JoinLinesAt(s, 0, lines);
    SplitFromJoined(s, 0, lines);
  }

  // ---------------------------------------------------------------------------
  // strtoul(.., 16)

  /** The characters `isspace` accepts in the C locale. */
  predicate IsSpace(c: char)
  {
    c == ' ' || c == '\t' || c == '\n' || c == '\r' || c == '\U{0B}' || c == '\U{0C}'
  }

  predicate IsHexDigit(c: char)
  {
    ('0' <= c <= '9') || ('a' <= c <= 'f') || ('A' <= c <= 'F')
  }

  function HexDigitValue(c: char): (v: nat)
    requires IsHexDigit(c)
    ensures v < 16
  {
    if '0' <= c <= '9' then c as int - '0' as int
    else if 'a' <= c <= 'f' then c as int - 'a' as int + 10
    else c as int - 'A' as int + 10
  }

  function LeadingSpaces(s: seq<char>): (r: nat)
    ensures r <= |s|
    ensures forall j :: 0 <= j < r ==> IsSpace(s[j])
    ensures r < |s| ==> !IsSpace(s[r])
  {
    if s == [] || !IsSpace(s[0]) then 0 else 1 + LeadingSpaces(s[1..])
  }

  function LeadingHexDigits(s: seq<char>): (r: nat)
    ensures r <= |s|
    ensures forall j :: 0 <= j < r ==> IsHexDigit(s[j])
    ensures r < |s| ==> !IsHexDigit(s[r])
  {
    if s == [] || !IsHexDigit(s[0]) then 0 else 1 + LeadingHexDigits(s[1..])
  }

  predicate AllHex(d: seq<char>)
  {
    forall j :: 0 <= j < |d| ==> IsHexDigit(d[j])
  }

  /** The number a string of hex digits denotes, most significant digit first. */
  function HexValue(d: seq<char>): nat
    requires AllHex(d)
  {
    if d == [] then 0 else HexValue(d[..|d| - 1]) * 16 + HexDigitValue(d[|d| - 1])
  }

  /** The value of the hex digits at the front of `w`. */
  function LeadingHexValue(w: seq<char>): nat
  {
    HexValue(w[..LeadingHexDigits(w)])
  }

  /** `strtoul`'s optional `0x`/`0X` prefix, dropped only when a hex digit follows it. */
  function DropHexPrefix(u: seq<char>): (w: seq<char>)
    ensures w == u || (|u| > 2 && w == u[2..])
  {
    if |u| > 2 && u[0] == '0' && (u[1] == 'x' || u[1] == 'X') && IsHexDigit(u[2]) then u[2..] else u
  }

  /** `strtoul`'s optional sign, dropped. */
  function DropSign(t: seq<char>): (u: seq<char>)
    ensures u == t || (|t| > 0 && u == t[1..])
  {
    if |t| > 0 && (t[0] == '-' || t[0] == '+') then t[1..] else t
  }

  /**
   * `strtoul(s, .., 16)` on a machine whose `unsigned long` has `modulus`
   * values: leading white space, an optional sign, an optional `0x`/`0X`
   * prefix, then as many hex digits as follow; no digits reads as 0, a value
   * out of range saturates at the largest one, and a minus sign negates
   * modulo `modulus`.
   */
  function StrToUL(s: seq<char>, modulus: nat): (v: nat)
    requires modulus > 0
    ensures v < modulus
  {
    var t := s[LeadingSpaces(s)..];
    var n := LeadingHexValue(DropHexPrefix(DropSign(t)));
    if n >= modulus then modulus - 1
    else if |t| > 0 && t[0] == '-' then (if n == 0 then 0 else modulus - n)
    else n
  }

  lemma LeadingSpacesAppend(pre: seq<char>, d: seq<char>)
    requires forall j :: 0 <= j < |pre| ==> IsSpace(pre[j])
    requires d != [] && !IsSpace(d[0])
    ensures LeadingSpaces(pre + d) == |pre|
  {
    var s := pre + d;
    forall k | 0 <= k < |pre| ensures IsSpace(s[k]) { assert s[k] == pre[k]; }
    assert s[|pre|] == d[0];
  }

  /** A digit string reads as its value. */
  lemma LeadingHexValueOfDigits(d: seq<char>)
    requires AllHex(d)
    ensures LeadingHexValue(d) == HexValue(d)
  {
    assert d[..|d|] == d;
  }

  /** A digit string carries no sign and no `0x` prefix. */
  lemma DigitsHaveNoPrefix(d: seq<char>)
    requires d != [] && AllHex(d)
    ensures DropHexPrefix(DropSign(d)) == d
  {
    assert IsHexDigit(d[0]);
    assert DropSign(d) == d;
    assert |d| > 1 ==> IsHexDigit(d[1]);
  }

  /** Behind white space, a plain digit string reads as its value. */
  lemma StrToULOfDigits(pre: seq<char>, d: seq<char>, modulus: nat)
    requires modulus > 0
    requires forall j :: 0 <= j < |pre| ==> IsSpace(pre[j])
    requires d != [] && AllHex(d) && HexValue(d) < modulus
    ensures StrToUL(pre + d, modulus) == HexValue(d)
  {
    var t := (pre + d)[LeadingSpaces(pre + d)..];
    assert t == d by {
      assert IsHexDigit(d[0]);
      LeadingSpacesAppend(pre, d);
    }
    assert LeadingHexValue(DropHexPrefix(DropSign(t))) == HexValue(d) by {
      DigitsHaveNoPrefix(d);
      LeadingHexValueOfDigits(d);
    }
    assert t[0] != '-' by {
      assert IsHexDigit(d[0]);
    }
  }

  /** A plain digit string reads as its value. */
  lemma StrToULOfPlainDigits(d: seq<char>, modulus: nat)
    requires modulus > 0
    requires d != [] && AllHex(d) && HexValue(d) < modulus
    ensures StrToUL(d, modulus) == HexValue(d)
  {
    var empty: seq<char> := [];
    assert empty + d == d;
    StrToULOfDigits(empty, d, modulus);
  }

  // ---------------------------------------------------------------------------
  // One record

  /** A record of the reader's result: a region's start and its size. */
  datatype MapSegment = MapSegment(vaddr: nat, size: nat)

  /** Unsigned subtraction of addresses: `e - s` modulo `modulus`. */
  function SubAddr(e: nat, s: nat, modulus: nat): (d: nat)
    requires e < modulus && s < modulus
    ensures d < modulus
    ensures s + d == e || s + d == e + modulus
  {
    if s <= e then e - s else modulus - s + e
  }

  /**
   * `strtok(p, "-")` on a piece: skip leading `-`s and take the start token up
   * to the next `-`; none if nothing is left.  Also gives where the next
   * `strtok(NULL, ..)` resumes: behind that `-`, or at the end.
   */
  function StartToken(piece: seq<char>): (r: Option<(seq<char>, seq<char>)>)
    ensures r.None? <==> forall j :: 0 <= j < |piece| ==> piece[j] == '-'
    ensures r.Some? ==> r.value.0 != [] && '-' !in r.value.0 && |r.value.0| + |r.value.1| <= |piece|
    ensures r.Some? ==>
              var a, t := LeadingCount(piece, '-'), r.value.0;
              && a + |t| <= |piece| && piece[a..a + |t|] == t
              && (a + |t| == |piece| ==> r.value.1 == [])
              && (a + |t| < |piece| ==> piece[a + |t|] == '-' && r.value.1 == piece[a + |t| + 1..])
  {
    var a := LeadingCount(piece, '-');
    if a == |piece| then None
    else
      var t := piece[a..];
      var i := IndexOf(t, '-');
      Some((t[..i], if i == |t| then [] else t[i + 1..]))
  }

  /** `strtok(NULL, " ")` where the last call stopped: skip spaces and take
      the end token up to the next space; none if nothing is left. */
  function EndToken(rest: seq<char>): (r: Option<seq<char>>)
    ensures r.None? <==> forall j :: 0 <= j < |rest| ==> rest[j] == ' '
    ensures r.Some? ==> r.value != [] && ' ' !in r.value && |r.value| <= |rest|
    ensures r.Some? ==>
              var b := LeadingCount(rest, ' ');
              && b + |r.value| <= |rest| && rest[b..b + |r.value|] == r.value
              && (b + |r.value| < |rest| ==> rest[b + |r.value|] == ' ')
  {
    var b := LeadingCount(rest, ' ');
    if b == |rest| then None
    else
      var u := rest[b..];
      Some(u[..IndexOf(u, ' ')])
  }

  /**
   * Parses one piece as the reader does: the start token and the end token
   * are read by `strtoul(.., 16)`; the size is their unsigned difference.
   * A missing token fails the piece.
   */
  function ParseSegment(piece: seq<char>, modulus: nat): (r: Option<MapSegment>)
    requires modulus > 0
    ensures r.Some? <==> StartToken(piece).Some? && EndToken(StartToken(piece).value.1).Some?
    ensures r.Some? ==> r.value.vaddr < modulus && r.value.size < modulus
  {
    match StartToken(piece)
    case None => None
    case Some((startTok, rest)) =>
      match EndToken(rest)
      case None => None
      case Some(endTok) =>
        var saddr := StrToUL(startTok, modulus);
        var eaddr := StrToUL(endTok, modulus);
        Some(MapSegment(saddr, SubAddr(eaddr, saddr, modulus)))
  }

  /** A line of the maps file: `START-END perms offset dev inode path`, with
      the two addresses as the hex digits the kernel writes (zero-padded, as
      `0804a000`, or not) and everything after the end address kept as `tail`. */
  datatype MapsLine = MapsLine(start: seq<char>, end: seq<char>, tail: seq<char>)

  /** Both addresses are non-empty hex digit strings whose values are
      addresses, and the tail holds no newline and no NUL. */
  predicate WellFormedLine(l: MapsLine, modulus: nat)
  {
    && l.start != [] && AllHex(l.start) && HexValue(l.start) < modulus
    && l.end != [] && AllHex(l.end) && HexValue(l.end) < modulus
    && '\n' !in l.tail && '\0' !in l.tail
  }

  function FormatLine(l: MapsLine): seq<char>
  {
    l.start + ['-'] + l.end + [' '] + l.tail
  }

  function Newlines(n: nat): (s: seq<char>)
    ensures |s| == n && forall j :: 0 <= j < n ==> s[j] == '\n'
  {
    if n == 0 then [] else ['\n'] + Newlines(n - 1)
  }

  /** A piece that starts with a token free of `-` and has a `-` behind it. */
  lemma StartTokenOf(tok: seq<char>, rest: seq<char>)
    requires tok != [] && '-' !in tok
    ensures StartToken(tok + ['-'] + rest) == Some((tok, rest))
  {
    var piece := tok + (['-'] + rest);
    assert tok + ['-'] + rest == piece;
    assert piece[0] == tok[0];
    assert LeadingCount(piece, '-') == 0;
    assert piece[0..] == piece;
    IndexOfAppend(tok, ['-'] + rest, '-');
    assert piece[..|tok|] == tok;
    assert piece[|tok| + 1..] == rest;
  }

  /** A rest that starts with the end token. */
  lemma EndTokenOf(rest: seq<char>)
    requires rest != [] && rest[0] != ' '
    ensures EndToken(rest) == Some(rest[..IndexOf(rest, ' ')])
  {
    assert LeadingCount(rest, ' ') == 0;
    assert rest[0..] == rest;
  }

  /** A character that is not a hex digit does not occur in a digit string. */
  lemma NotInDigits(d: seq<char>, c: char)
    requires AllHex(d) && !IsHexDigit(c)
    ensures c !in d
  {
  }

  /** A digit string followed by a space is the end token. */
  lemma EndTokenOfDigits(d: seq<char>, tail: seq<char>)
    requires d != [] && AllHex(d) && tail != [] && tail[0] == ' '
    ensures EndToken(d + tail) == Some(d)
  {
    var rest := d + tail;
    assert rest[0] == d[0];
    EndTokenOf(rest);
    NotInDigits(d, ' ');
    IndexOfAppend(d, tail, ' ');
    assert rest[..|d|] == d;
  }

  /** A piece without a `-` fails: `strtok(p, "-")` takes the whole piece as
      the start token, so `strtok(NULL, " ")` finds nothing left. */
  lemma NoDashFails(piece: seq<char>, modulus: nat)
    requires modulus > 0 && '-' !in piece
    ensures ParseSegment(piece, modulus).None?
  {
    if piece != [] {
      assert piece[0] != '-';
      assert LeadingCount(piece, '-') == 0;
      assert piece[0..] == piece && piece[..|piece|] == piece;
      IndexOfIs(piece, '-', |piece|);
      assert StartToken(piece) == Some((piece, []));
    }
  }

  /** A piece is read as its two tokens. */
  lemma ParseOfTokens(piece: seq<char>, tok: seq<char>, rest: seq<char>, endTok: seq<char>, modulus: nat)
    requires modulus > 0
    requires StartToken(piece) == Some((tok, rest)) && EndToken(rest) == Some(endTok)
    ensures ParseSegment(piece, modulus)
         == Some(MapSegment(StrToUL(tok, modulus), SubAddr(StrToUL(endTok, modulus), StrToUL(tok, modulus), modulus)))
  {
  }

  /** How a line regroups into start token, `-` and the rest. */
  lemma LineShape(nl: seq<char>, d1: seq<char>, d2: seq<char>, tail: seq<char>)
    ensures nl + (d1 + ['-'] + d2 + [' '] + tail) == (nl + d1) + ['-'] + (d2 + ([' '] + tail))
  {
  }

  /** Digit strings around a `-` and before a space, behind newlines, are read
      as a record of their values. */
  lemma ParseDigitsLine(nl: seq<char>, d1: seq<char>, d2: seq<char>, tail: seq<char>, modulus: nat)
    requires modulus > 0
    requires forall j :: 0 <= j < |nl| ==> nl[j] == '\n'
    requires d1 != [] && AllHex(d1) && HexValue(d1) < modulus
    requires d2 != [] && AllHex(d2) && HexValue(d2) < modulus
    ensures ParseSegment(nl + (d1 + ['-'] + d2 + [' '] + tail), modulus)
         == Some(MapSegment(HexValue(d1), SubAddr(HexValue(d2), HexValue(d1), modulus)))
  {
    var tok := nl + d1;
    var rest := d2 + ([' '] + tail);
    var piece := tok + ['-'] + rest;
    LineShape(nl, d1, d2, tail);
    assert StartToken(piece) == Some((tok, rest)) by {
      NotInDigits(d1, '-');
      StartTokenOf(tok, rest);
    }
    assert EndToken(rest) == Some(d2) by {
      EndTokenOfDigits(d2, [' '] + tail);
    }
    assert StrToUL(tok, modulus) == HexValue(d1) by {
      StrToULOfDigits(nl, d1, modulus);
    }
    assert StrToUL(d2, modulus) == HexValue(d2) by {
      StrToULOfPlainDigits(d2, modulus);
    }
    ParseOfTokens(piece, tok, rest, d2, modulus);
  }

  /** A well-formed line, even behind a run of blank lines, yields the record
      of its two addresses: the start, and the end minus the start. */
  lemma ParseFormattedLine(n: nat, l: MapsLine, modulus: nat)
    requires modulus > 0 && WellFormedLine(l, modulus)
    ensures ParseSegment(Newlines(n) + FormatLine(l), modulus)
         == Some(MapSegment(HexValue(l.start), SubAddr(HexValue(l.end), HexValue(l.start), modulus)))
  {
    ParseDigitsLine(Newlines(n), l.start, l.end, l.tail, modulus);
  }

  /** The digits both example addresses start with. */
  lemma ExamplePrefix()
    ensures AllHex("0804") && HexValue("0804") == 0x0804
  {
    assert HexValue("0") == 0x0 by { assert "0"[..0] == ""; }
    assert HexValue("08") == 0x08 by { assert "08"[..1] == "0"; }
    assert HexValue("080") == 0x080 by { assert "080"[..2] == "08"; }
    assert HexValue("0804") == 0x0804 by { assert "0804"[..3] == "080"; }
  }

  /** The start address of the example line. */
  lemma ExampleStart()
    ensures AllHex("0804a000") && HexValue("0804a000") == 0x0804a000
  {
    ExamplePrefix();
    assert HexValue("0804a") == 0x0804a by { assert "0804a"[..4] == "0804"; }
    assert HexValue("0804a0") == 0x0804a0 by { assert "0804a0"[..5] == "0804a"; }
    assert HexValue("0804a00") == 0x0804a00 by { assert "0804a00"[..6] == "0804a0"; }
    assert HexValue("0804a000") == 0x0804a000 by { assert "0804a000"[..7] == "0804a00"; }
  }

  /** The end address of the example line. */
  lemma ExampleEnd()
    ensures AllHex("0804c000") && HexValue("0804c000") == 0x0804c000
  {
    ExamplePrefix();
    assert HexValue("0804c") == 0x0804c by { assert "0804c"[..4] == "0804"; }
    assert HexValue("0804c0") == 0x0804c0 by { assert "0804c0"[..5] == "0804c"; }
    assert HexValue("0804c00") == 0x0804c00 by { assert "0804c00"[..6] == "0804c0"; }
    assert HexValue("0804c000") == 0x0804c000 by { assert "0804c000"[..7] == "0804c00"; }
  }

  /** The first line of the example in the reader's own comment, whatever
      follows its end address, as a 32-bit mutatee sees it: the region at
      0x0804a000 of size 0x2000. */
  lemma ParseExampleLine(tail: seq<char>)
    ensures ParseSegment(FormatLine(MapsLine("0804a000", "0804c000", tail)), 0x1_0000_0000)
         == Some(MapSegment(0x0804a000, 0x2000))
  {
    ExampleStart();
    ExampleEnd();
    ParseDigitsLine([], "0804a000", "0804c000", tail, 0x1_0000_0000);
    assert [] + FormatLine(MapsLine("0804a000", "0804c000", tail)) == FormatLine(MapsLine("0804a000", "0804c000", tail));
  }

}
