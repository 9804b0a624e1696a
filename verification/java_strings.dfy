/** The few operations on Java strings and lists that the service relies on:
    `String.split` with a literal one-character separator and the default
    limit 0, `Collectors.joining` and `Collections.reverse`. */
module JavaStrings {

  /** The pieces of `s` between consecutive occurrences of `sep`, keeping
      every empty piece: there is always one more piece than separators. */
  function Pieces(s: string, sep: char): (parts: seq<string>)
    ensures |parts| >= 1
    ensures forall i :: 0 <= i < |parts| ==> sep !in parts[i]
  {
    if s == [] then [""]
    else
      var rest := Pieces(s[1..], sep);
      if s[0] == sep then [""] + rest
      else [[s[0]] + rest[0]] + rest[1..]
  }

  /** Drops the empty strings at the end of `parts`, as `split` does with
      limit 0. */
  function DropTrailingEmpty(parts: seq<string>): (kept: seq<string>)
    ensures kept <= parts
    ensures forall i :: |kept| <= i < |parts| ==> parts[i] == ""
    ensures |kept| > 0 ==> kept[|kept| - 1] != ""
  {
    if |parts| == 0 then []
    else if parts[|parts| - 1] == "" then DropTrailingEmpty(parts[..|parts| - 1])
    else parts
  }

  /** `s.split(Pattern.quote(sep))`: when no separator occurs the result is
      `s` itself (even when `s` is empty); otherwise it is the pieces of `s`
      with the trailing empty pieces removed, so it may be empty. */
  function Split(s: string, sep: char): (parts: seq<string>)
    ensures sep !in s ==> parts == [s]
    ensures parts <= Pieces(s, sep)
    ensures forall i :: |parts| <= i < |Pieces(s, sep)| ==> Pieces(s, sep)[i] == ""
    ensures sep in s && |parts| > 0 ==> parts[|parts| - 1] != ""
    ensures forall i :: 0 <= i < |parts| ==> sep !in parts[i]
  {
    if sep !in s then
      PiecesWithoutSeparator(s, sep);
      [s]
    else DropTrailingEmpty(Pieces(s, sep))
  }

  /** `Collectors.joining(sep)`: the parts with one `sep` between neighbours;
      no parts give the empty string. */
  function Join(parts: seq<string>, sep: char): (r: string)
    ensures |parts| > 0 ==> parts[0] <= r
  {
    if |parts| == 0 then ""
    else if |parts| == 1 then parts[0]
    else parts[0] + [sep] + Join(parts[1..], sep)
  }

  /** `Collections.reverse` applied to a fresh list. */
  function Reversed<T>(s: seq<T>): (r: seq<T>)
    ensures |r| == |s|
    ensures forall i :: 0 <= i < |s| ==> r[i] == s[|s| - 1 - i]
  {
    if s == [] then [] else Reversed(s[1..]) + [s[0]]
  }

  lemma ReversedTwice<T>(s: seq<T>)
    ensures Reversed(Reversed(s)) == s
  {
  }

  lemma {:induction false} PiecesWithoutSeparator(s: string, sep: char)
    requires sep !in s
    ensures Pieces(s, sep) == [s]
  {
    if s != [] {
      PiecesWithoutSeparator(s[1..], sep);
      assert [s[0]] + s[1..] == s;
    }
  }

  /** Splitting at one separator splits the two sides independently. */
  lemma {:induction false} PiecesAround(a: string, b: string, sep: char)
    ensures Pieces(a + [sep] + b, sep) == Pieces(a, sep) + Pieces(b, sep)
  {
    var s := a + [sep] + b;
    if a == [] {
      assert s[1..] == b;
    } else {
      assert s[1..] == a[1..] + [sep] + b;
      PiecesAround(a[1..], b, sep);
    }
  }

  /** Joining the pieces of a string gives the string back. */
  lemma {:induction false} JoinPieces(s: string, sep: char)
    ensures Join(Pieces(s, sep), sep) == s
  {
    if s != [] {
      var rest := Pieces(s[1..], sep);
      JoinPieces(s[1..], sep);
      if s[0] == sep {
        assert Pieces(s, sep)[1..] == rest;
      } else if |rest| == 1 {
        assert Pieces(s, sep) == [[s[0]] + rest[0]];
      } else {
        var parts := Pieces(s, sep);
        assert parts[1..] == rest[1..];
        assert Join(rest, sep) == rest[0] + [sep] + Join(rest[1..], sep);
      }
    }
  }

  /** Splitting a join of separator-free parts gives the parts back. */
  lemma {:induction false} PiecesOfJoin(parts: seq<string>, sep: char)
    requires |parts| >= 1
    requires forall i :: 0 <= i < |parts| ==> sep !in parts[i]
    ensures Pieces(Join(parts, sep), sep) == parts
  {
    PiecesWithoutSeparator(parts[0], sep);
    if |parts| > 1 {
      PiecesOfJoin(parts[1..], sep);
      PiecesAround(parts[0], Join(parts[1..], sep), sep);
    }
  }

  /** When the last piece is non-empty, `split` keeps every piece. */
  lemma SplitKeepsAllPieces(s: string, sep: char)
    requires Pieces(s, sep)[|Pieces(s, sep)| - 1] != ""
    ensures Split(s, sep) == Pieces(s, sep)
  {
    if sep !in s {
      PiecesWithoutSeparator(s, sep);
    }
  }
}
