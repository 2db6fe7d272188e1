/**
 * The PHP string built-ins the rules rely on, with PHP 8 semantics:
 * `strpos`/`stripos` (first occurrence, `false` when absent), the ASCII case
 * folding `stripos` and method lookup apply, `trim` with its default
 * character list, and `explode`/`implode` on a one-character delimiter.
 */
module PhpStrings {
  import opened Wrappers

  /** An ASCII upper-case letter. */
  predicate IsUpper(c: char) {
    'A' <= c <= 'Z'
  }

  /** ASCII lower-casing, as `stripos` and PHP's method-name lookup do it. */
  function LowerChar(c: char): char {
    if IsUpper(c) then (c as int + 32) as char else c
  }

  /**
   * Folds `s` to lower case: the length is kept, each upper-case letter
   * becomes the lower-case letter at the same place in the alphabet, no
   * upper-case letter is left, and every other character stays put.
   */
  function Lower(s: string): (r: string)
    ensures |r| == |s|
    ensures forall i :: 0 <= i < |s| && IsUpper(s[i]) ==> 'a' <= r[i] <= 'z' && r[i] as int - 'a' as int == s[i] as int - 'A' as int
    ensures forall i :: 0 <= i < |r| ==> !IsUpper(r[i])
    ensures forall i :: 0 <= i < |s| && !IsUpper(s[i]) ==> r[i] == s[i]
  {
    seq(|s|, i requires 0 <= i < |s| => LowerChar(s[i]))
  }

  /** A string without upper-case letters is its own lower-case form. */
  lemma LowerKeepsLowerCase(s: string)
    requires forall i :: 0 <= i < |s| ==> !IsUpper(s[i])
    ensures Lower(s) == s
  {
    assert forall i :: 0 <= i < |s| ==> Lower(s)[i] == s[i];
  }

  /** Folding twice is folding once. */
  lemma LowerIdempotent(s: string)
    ensures Lower(Lower(s)) == Lower(s)
  {
    LowerKeepsLowerCase(Lower(s));
  }

  /** The needle `n` sits in `h` at position `i`. */
  predicate OccursAt(h: string, n: string, i: int) {
    0 <= i && i + |n| <= |h| && h[i..i + |n|] == n
  }

  /** `strpos($h, $n)`: the first position of `n` in `h`, None for `false`. */
  function IndexOf(h: string, n: string): Option<nat> {
    IndexFrom(h, n, 0)
  }

  /** The first position of `n` in `h` at or after `start`. */
  function IndexFrom(h: string, n: string, start: nat): Option<nat>
    decreases |h| - start
  {
    if start + |n| > |h| then None
    else if h[start..start + |n|] == n then Some(start)
    else IndexFrom(h, n, start + 1)
  }

  lemma {:induction false} IndexFromFirst(h: string, n: string, start: nat)
    ensures var r := IndexFrom(h, n, start);
      && (r.Some? ==> start <= r.value && OccursAt(h, n, r.value))
      && (r.Some? ==> forall j :: start <= j < r.value ==> !OccursAt(h, n, j))
      && (r.None? ==> forall j :: start <= j ==> !OccursAt(h, n, j))
    decreases |h| - start
  {
    if start + |n| <= |h| && h[start..start + |n|] != n {
      IndexFromFirst(h, n, start + 1);
    }
  }

  /** `strpos` finds the first occurrence, and reports none only when there is none. */
  lemma IndexOfFirst(h: string, n: string)
    ensures var r := IndexOf(h, n);
      && (r.Some? ==> OccursAt(h, n, r.value))
      && (r.Some? ==> forall j :: 0 <= j < r.value ==> !OccursAt(h, n, j))
      && (r.None? ==> forall j :: !OccursAt(h, n, j))
  {
    IndexFromFirst(h, n, 0);
  }

  /** Conversely, a first occurrence is what `strpos` finds. */
  lemma IndexOfAt(h: string, n: string, p: nat)
    requires OccursAt(h, n, p)
    requires forall j :: 0 <= j < p ==> !OccursAt(h, n, j)
    ensures IndexOf(h, n) == Some(p)
  {
    IndexOfFirst(h, n);
  }

  /** `stripos($h, $n)`: like `strpos`, ignoring ASCII case. */
  function IndexOfIgnoringCase(h: string, n: string): Option<nat> {
    IndexOf(Lower(h), Lower(n))
  }

  /** `stripos` finds the first occurrence once both sides are lower-cased. */
  lemma IndexOfIgnoringCaseFirst(h: string, n: string)
    ensures var r := IndexOfIgnoringCase(h, n);
      && (r.Some? ==> OccursAt(Lower(h), Lower(n), r.value))
      && (r.Some? ==> forall j :: 0 <= j < r.value ==> !OccursAt(Lower(h), Lower(n), j))
      && (r.None? ==> forall j :: !OccursAt(Lower(h), Lower(n), j))
  {
    IndexOfFirst(Lower(h), Lower(n));
  }

  /** The characters `trim` strips by default: " \t\n\r\0\x0B". */
  predicate IsTrimmed(c: char) {
    c == ' ' || c == '\t' || c == '\n' || c == '\r' || c as int == 0 || c as int == 11
  }

  /** `ltrim($s)`: drops leading trim characters. */
  function TrimStart(s: string): string
    decreases |s|
  {
    if |s| > 0 && IsTrimmed(s[0]) then TrimStart(s[1..]) else s
  }

  /** `rtrim($s)`: drops trailing trim characters. */
  function TrimEnd(s: string): string
    decreases |s|
  {
    if |s| > 0 && IsTrimmed(s[|s| - 1]) then TrimEnd(s[..|s| - 1]) else s
  }

  /** `ltrim` leaves a suffix that starts with a kept character, having dropped only trim characters. */
  lemma {:induction false} TrimStartSuffix(s: string)
    ensures var r := TrimStart(s);
      && |r| <= |s| && r == s[|s| - |r|..]
      && (forall k :: 0 <= k < |s| - |r| ==> IsTrimmed(s[k]))
      && (r == [] || !IsTrimmed(r[0]))
    decreases |s|
  {
    if |s| > 0 && IsTrimmed(s[0]) {
      TrimStartSuffix(s[1..]);
    }
  }

  /** `rtrim` leaves a prefix that ends with a kept character, having dropped only trim characters. */
  lemma {:induction false} TrimEndPrefix(s: string)
    ensures var r := TrimEnd(s);
      && |r| <= |s| && r == s[..|r|]
      && (forall k :: |r| <= k < |s| ==> IsTrimmed(s[k]))
      && (r == [] || !IsTrimmed(r[|r| - 1]))
    decreases |s|
  {
    if |s| > 0 && IsTrimmed(s[|s| - 1]) {
      TrimEndPrefix(s[..|s| - 1]);
    }
  }

  /** `trim($s)`: the middle of `s` once trim characters are dropped from both ends. */
  function Trim(s: string): string {
    TrimEnd(TrimStart(s))
  }

  /**
   * `trim` keeps a contiguous middle part of `s` whose ends are kept
   * characters, and everything it drops on either side is a trim character.
   */
  lemma TrimMiddle(s: string)
    ensures var r := Trim(s);
      var a := |s| - |TrimStart(s)|;
      && (r == [] || (!IsTrimmed(r[0]) && !IsTrimmed(r[|r| - 1])))
      && 0 <= a && a + |r| <= |s| && r == s[a..a + |r|]
      && (forall k :: 0 <= k < a ==> IsTrimmed(s[k]))
      && (forall k :: a + |r| <= k < |s| ==> IsTrimmed(s[k]))
  {
    var t := TrimStart(s);
    TrimStartSuffix(s);
    TrimEndPrefix(t);
    var r := TrimEnd(t);
    var a := |s| - |t|;
    if r != [] {
      assert r[0] == t[0];
    }
    forall k | a + |r| <= k < |s| ensures IsTrimmed(s[k]) {
      assert s[k] == t[k - a];
    }
    assert r == s[a..a + |r|];
  }

  /** `trim` leaves alone a string whose ends are already kept characters. */
  lemma TrimClean(s: string)
    requires s == [] || (!IsTrimmed(s[0]) && !IsTrimmed(s[|s| - 1]))
    ensures Trim(s) == s
  {
  }

  /** `implode($d, $pieces)`. */
  function Join(pieces: seq<string>, d: char): string {
    if |pieces| == 0 then ""
    else if |pieces| == 1 then pieces[0]
    else pieces[0] + [d] + Join(pieces[1..], d)
  }

  /** `explode($d, $s)`: the pieces of `s` between the delimiters. */
  function Split(s: string, d: char): seq<string> {
    if |s| == 0 then [""]
    else
      var rest := Split(s[1..], d);
      if s[0] == d then [""] + rest
      else [[s[0]] + rest[0]] + rest[1..]
  }

  /** `explode` yields at least one piece, no piece holds the delimiter, and imploding restores `s`. */
  lemma {:induction false} SplitPieces(s: string, d: char)
    ensures |Split(s, d)| >= 1
    ensures forall p :: p in Split(s, d) ==> d !in p
    ensures Join(Split(s, d), d) == s
    decreases |s|
  {
    if |s| > 0 {
      SplitPieces(s[1..], d);
      var rest := Split(s[1..], d);
      assert s == [s[0]] + s[1..];
      if s[0] != d {
        var r := Split(s, d);
        forall p | p in r ensures d !in p {
          if p != r[0] {
            assert p in rest[1..];
          }
        }
      }
    }
  }

  lemma {:induction false} SplitPiece(p: string, t: string, d: char)
    requires d !in p
    ensures Split(p + [d] + t, d) == [p] + Split(t, d)
    decreases |p|
  {
    if |p| == 0 {
      assert p + [d] + t == [d] + t;
    } else {
      var s := p + [d] + t;
      assert s[0] == p[0] && s[1..] == p[1..] + [d] + t;
      SplitPiece(p[1..], t, d);
      assert [p[0]] + p[1..] == p;
    }
  }

  lemma {:induction false} SplitWhole(p: string, d: char)
    requires d !in p
    ensures Split(p, d) == [p]
    decreases |p|
  {
    if |p| > 0 {
      SplitWhole(p[1..], d);
      assert [p[0]] + p[1..] == p;
    }
  }

  /** Exploding an imploded list of delimiter-free pieces gives the pieces back. */
  lemma {:induction false} SplitJoin(pieces: seq<string>, d: char)
    requires |pieces| >= 1
    requires forall p :: p in pieces ==> d !in p
    ensures Split(Join(pieces, d), d) == pieces
    decreases |pieces|
  {
    if |pieces| == 1 {
      SplitWhole(pieces[0], d);
    } else {
      assert pieces[0] in pieces;
      forall p | p in pieces[1..] ensures d !in p {
        assert p in pieces;
      }
      SplitJoin(pieces[1..], d);
      SplitPiece(pieces[0], Join(pieces[1..], d), d);
      assert [pieces[0]] + pieces[1..] == pieces;
    }
  }
}
