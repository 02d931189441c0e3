/**
 * The parts of java.lang.String (and of Java's null) that the chat programs
 * depend on, written out so that their edge cases are explicit:
 * `startsWith`, `indexOf`, `trim`, `split(",")`, `String.join(",", ...)`
 * and string concatenation of a possibly-null reference.
 */
module JavaLang {

  /** A Java reference that may be null. */
  datatype Option<T> = None | Some(value: T)

  /**
   * What string concatenation appends for a possibly-null String: the
   * string itself, or "null", so a null name prints like the name "null".
   */
  function Str(s: Option<string>): (r: string)
    ensures s.Some? ==> r == s.value
    ensures r == "null" <==> s.None? || s.value == "null"
  {
    if s.Some? then s.value else "null"
  }

  /** `s.startsWith(prefix)`. */
  predicate StartsWith(s: string, prefix: string)
  {
    |prefix| <= |s| && s[..|prefix|] == prefix
  }

  /** Non-empty strings with different first letters are not prefixes of each other. */
  lemma DifferentFirstLetter(s: string, p: string)
    requires s != [] && p != [] && s[0] != p[0]
    ensures !StartsWith(s, p)
  {
  }

  /** Concatenation is associative. */
  lemma AppendAssoc<T>(a: seq<T>, b: seq<T>, c: seq<T>)
    ensures a + b + c == a + (b + c)
  {
  }

  /** Appending two elements one at a time is appending the pair. */
  lemma AppendPair<T>(s: seq<T>, a: T, b: T)
    ensures s + [a] + [b] == s + [a, b]
  {
  }

  /** A non-empty sequence is its first element followed by the rest. */
  lemma HeadTail<T>(s: seq<T>)
    requires s != []
    ensures s == [s[0]] + s[1..]
  {
  }

  /** An element in front shifts every slice by one. */
  lemma SliceOfCons<T>(c: T, s: seq<T>, a: nat, e: nat)
    requires a <= e <= |s|
    ensures ([c] + s)[a + 1..e + 1] == s[a..e]
  {
  }

  /** What lies on either side of the one element after `a`. */
  lemma AroundOne<T>(a: seq<T>, c: T, b: seq<T>)
    ensures (a + [c] + b)[..|a|] == a && (a + [c] + b)[|a| + 1..] == b
  {
  }

  /** Strings that differ at a position both have are not prefixes of each other. */
  lemma DifferAt(s: string, p: string, k: nat)
    requires k < |s| && k < |p| && s[k] != p[k]
    ensures !StartsWith(s, p)
  {
  }

  /** `s.indexOf(c)`: the first position of `c` in `s`, or -1. */
  function IndexOf(s: string, c: char): (i: int)
    ensures -1 <= i < |s|
    ensures i == -1 <==> c !in s
    ensures 0 <= i ==> s[i] == c && c !in s[..i]
  {
    if s == [] then -1
    else if s[0] == c then 0
    else
      var j := IndexOf(s[1..], c);
      assert s == [s[0]] + s[1..];
      if j == -1 then -1
      else
        assert s[..j + 1] == [s[0]] + s[1..][..j];
        j + 1
  }

  /** The characters `String.trim` removes: every code point up to U+0020. */
  predicate IsTrimmable(c: char)
  {
    c <= ' '
  }

  /** The first position from `i` on that `trim` keeps at the front of `s` (or `|s|` when there is none). */
  function SkipBlanks(s: string, i: nat): (j: nat)
    requires i <= |s|
    ensures i <= j <= |s|
    ensures j == |s| || !IsTrimmable(s[j])
    decreases |s| - i
  {
    if i < |s| && IsTrimmable(s[i]) then SkipBlanks(s, i + 1) else i
  }

  /** Where what `trim` keeps ends, looking back from `j` but not past `lo`. */
  function BackBlanks(s: string, lo: nat, j: nat): (e: nat)
    requires lo <= j <= |s|
    ensures lo <= e <= j
    ensures e == lo || !IsTrimmable(s[e - 1])
    decreases j
  {
    if lo < j && IsTrimmable(s[j - 1]) then BackBlanks(s, lo, j - 1) else j
  }

  /** How many characters `trim` drops from the front of `s`. */
  function Leading(s: string): nat
    ensures Leading(s) <= |s|
  {
    SkipBlanks(s, 0)
  }

  /**
   * `s.trim()`: the slice of `s` left after dropping every trimmable
   * character at either end; it neither starts nor ends with one.
   */
  function Trim(s: string): (r: string)
    ensures Leading(s) + |r| <= |s| && r == s[Leading(s)..Leading(s) + |r|]
    ensures r == [] || (!IsTrimmable(r[0]) && !IsTrimmable(r[|r| - 1]))
  {
    var a := Leading(s);
    s[a..BackBlanks(s, a, |s|)]
  }

  /** Everything `trim` drops, in front of what it keeps and after it, is trimmable. */
  lemma TrimDropsBlanks(s: string)
    ensures forall k :: 0 <= k < Leading(s) ==> IsTrimmable(s[k])
    ensures forall k :: Leading(s) + |Trim(s)| <= k < |s| ==> IsTrimmable(s[k])
  {
    SkippedAreBlank(s, 0);
    assert Leading(s) + |Trim(s)| == BackBlanks(s, Leading(s), |s|);
    BackedAreBlank(s, Leading(s), |s|);
  }

  /** Every character `SkipBlanks` passes over is trimmable. */
  lemma {:induction false} SkippedAreBlank(s: string, i: nat)
    requires i <= |s|
    ensures forall k :: i <= k < SkipBlanks(s, i) ==> IsTrimmable(s[k])
    decreases |s| - i
  {
    if i < |s| && IsTrimmable(s[i]) {
      SkippedAreBlank(s, i + 1);
    }
  }

  /** Every character `BackBlanks` passes over is trimmable. */
  lemma {:induction false} BackedAreBlank(s: string, lo: nat, j: nat)
    requires lo <= j <= |s|
    ensures forall k :: BackBlanks(s, lo, j) <= k < j ==> IsTrimmable(s[k])
    decreases j
  {
    if lo < j && IsTrimmable(s[j - 1]) {
      BackedAreBlank(s, lo, j - 1);
    }
  }

  /** A trimmable character in front moves where the front blanks end by one. */
  lemma {:induction false} SkipBlanksShift(c: char, s: string, i: nat)
    requires i <= |s|
    ensures SkipBlanks([c] + s, i + 1) == SkipBlanks(s, i) + 1
    decreases |s| - i
  {
    assert ([c] + s)[i + 1..] == s[i..];
    if i < |s| {
      assert ([c] + s)[i + 1] == s[i];
      SkipBlanksShift(c, s, i + 1);
    }
  }

  /** A character in front moves where the back blanks start by one. */
  lemma {:induction false} BackBlanksShift(c: char, s: string, lo: nat, j: nat)
    requires lo <= j <= |s|
    ensures BackBlanks([c] + s, lo + 1, j + 1) == BackBlanks(s, lo, j) + 1
    decreases j
  {
    if lo < j {
      assert ([c] + s)[j] == s[j - 1];
      BackBlanksShift(c, s, lo, j - 1);
    }
  }

  /** A string with nothing for `trim` to remove is its own trim. */
  lemma TrimUnpadded(s: string)
    requires s == [] || (!IsTrimmable(s[0]) && !IsTrimmable(s[|s| - 1]))
    ensures Trim(s) == s
  {
    assert Leading(s) == 0;
    assert s[0..|s|] == s;
  }

  /** `trim` only removes characters, so it adds none. */
  lemma TrimKeepsOut(s: string, c: char)
    requires c !in s
    ensures c !in Trim(s)
  {
    var t := Trim(s);
    assert forall k :: 0 <= k < |t| ==> t[k] == s[Leading(s) + k];
  }

  /** `trim` is idempotent. */
  lemma TrimIdempotent(s: string)
    ensures Trim(Trim(s)) == Trim(s)
  {
    TrimUnpadded(Trim(s));
  }

  /** A trimmable character in front of a string does not change its trim. */
  lemma TrimSkipsLeadingBlank(c: char, s: string)
    requires IsTrimmable(c)
    ensures Trim([c] + s) == Trim(s)
  {
    var cs := [c] + s;
    SkipBlanksShift(c, s, 0);
    var a := Leading(s);
    assert Leading(cs) == SkipBlanks(cs, 1) == a + 1;
    BackBlanksShift(c, s, a, |s|);
    var e := BackBlanks(s, a, |s|);
    assert BackBlanks(cs, a + 1, |cs|) == e + 1;
    SliceOfCons(c, s, a, e);
  }

  /** `String.join(",", parts)`: every character is a comma or comes from one of the parts. */
  function Join(parts: seq<string>): (r: string)
    ensures forall c :: c in r && c != ',' ==> exists p :: p in parts && c in p
    ensures parts != [] ==> |parts[0]| <= |r| && r[..|parts[0]|] == parts[0]
  {
    if parts == [] then ""
    else if |parts| == 1 then parts[0]
    else parts[0] + "," + Join(parts[1..])
  }

  /**
   * The pieces between the commas of `s`, every one of them kept (as
   * `split(",", -1)` would give them); joining them back gives `s`.
   */
  function Pieces(s: string): (ps: seq<string>)
    ensures |ps| >= 1
    ensures forall p :: p in ps ==> ',' !in p
    ensures Join(ps) == s
    decreases |s|
  {
    var i := IndexOf(s, ',');
    if i == -1 then [s]
    else
      var rest := Pieces(s[i + 1..]);
      JoinCons(s[..i], rest);
      assert s == s[..i] + "," + s[i + 1..];
      [s[..i]] + rest
  }

  /** Joining a part in front of a non-empty list puts a comma between. */
  lemma JoinCons(a: string, rest: seq<string>)
    requires rest != []
    ensures Join([a] + rest) == a + "," + Join(rest)
  {
    assert ([a] + rest)[1..] == rest;
  }

  /** `ps` without its trailing run of empty strings. */
  function DropTrailingEmpty(ps: seq<string>): (r: seq<string>)
    ensures |r| <= |ps| && r == ps[..|r|]
    ensures forall k :: |r| <= k < |ps| ==> ps[k] == ""
    ensures r == [] || r[|r| - 1] != ""
  {
    if ps != [] && ps[|ps| - 1] == "" then DropTrailingEmpty(ps[..|ps| - 1]) else ps
  }

  /**
   * `s.split(",")`: the pieces between commas with trailing empty pieces
   * dropped; a string with no comma at all (the empty string included)
   * comes back as the one-element array holding it.
   */
  function Split(s: string): (r: seq<string>)
    ensures forall p :: p in r ==> ',' !in p
    ensures s == "" ==> r == [""]
    ensures s != "" ==> r == [] || r[|r| - 1] != ""
  {
    if s == "" then [""] else DropTrailingEmpty(Pieces(s))
  }

  /** The first `c` of `a + [c] + b` is the one after `a` when `a` has none. */
  lemma FirstAfter(a: string, c: char, b: string)
    requires c !in a
    ensures IndexOf(a + [c] + b, c) == |a|
  {
    assert (a + [c] + b)[|a|] == c;
    assert (a + [c] + b)[..|a|] == a;
  }

  /** Cutting at the first comma, at `i`, and then cutting the rest. */
  lemma PiecesAtComma(s: string, i: nat)
    requires IndexOf(s, ',') == i
    ensures Pieces(s) == [s[..i]] + Pieces(s[i + 1..])
  {
  }

  /** Joining comma-free parts and cutting at every comma gives the parts back. */
  lemma {:induction false} PiecesOfJoin(parts: seq<string>)
    requires parts != []
    requires forall p :: p in parts ==> ',' !in p
    ensures Pieces(Join(parts)) == parts
  {
    if |parts| > 1 {
      var head, tail := parts[0], Join(parts[1..]);
      var s := Join(parts);
      assert s == head + [','] + tail;
      assert head in parts;
      FirstAfter(head, ',', tail);
      AroundOne(head, ',', tail);
      assert forall p :: p in parts[1..] ==> p in parts;
      PiecesOfJoin(parts[1..]);
      PiecesAtComma(s, |head|);
      HeadTail(parts);
    }
  }

  /**
   * `split(",")` undoes `String.join(",", ...)` for comma-free parts whose
   * last part is not empty.
   */
  lemma SplitOfJoin(parts: seq<string>)
    requires parts != []
    requires forall p :: p in parts ==> ',' !in p
    requires parts[|parts| - 1] != ""
    ensures Split(Join(parts)) == parts
  {
    PiecesOfJoin(parts);
    if Join(parts) == "" {
      assert Pieces("") == [""];
    }
  }

  /** A lone space trims to nothing. */
  lemma TrimOfSpace()
    ensures Trim(" ") == ""
  {
    assert Leading(" ") == 1;
  }

  /** A lone comma has nothing trimmable and splits into two empty pieces, both trailing: no pieces at all. */
  lemma SplitOfComma()
    ensures Trim(",") == ","
    ensures Split(",") == []
  {
    assert Leading(",") == 0;
    assert IndexOf(",", ',') == 0;
    assert ","[1..] == "";
    assert Pieces(",") == ["", ""];
  }

  /** A comma-free string splits into itself alone. */
  lemma SplitWithoutComma(s: string)
    requires ',' !in s
    ensures Split(s) == [s]
  {
  }

  /** `r` is `s` with some characters deleted and the rest kept in order. */
  predicate IsSubsequence(r: string, s: string)
    decreases |s|
  {
    r == [] || (s != [] && if r[0] == s[0] then IsSubsequence(r[1..], s[1..]) else IsSubsequence(r, s[1..]))
  }
}
