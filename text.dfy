/**
 * The string operations the storage engine relies on: `join` and `split` for
 * the `.cols` schema sidecar (server/src/storage.rs:59, 67) and plain
 * concatenation of fixed-width identifiers for a row (storage.rs:92-94).
 */
module Text {

  /** Rust's `parts.join(sep)`: the parts with one separator between neighbours. */
  function Join(parts: seq<string>, sep: char): string {
    if |parts| == 0 then ""
    else if |parts| == 1 then parts[0]
    else parts[0] + [sep] + Join(parts[1..], sep)
  }

  /** Rust's `s.split(sep)` collected: always at least one piece, none holding `sep`. */
  function Split(s: string, sep: char): (pieces: seq<string>)
    ensures |pieces| >= 1
    ensures forall i :: 0 <= i < |pieces| ==> sep !in pieces[i]
  {
    if s == [] then [""]
    else if s[0] == sep then [""] + Split(s[1..], sep)
    else
      var rest := Split(s[1..], sep);
      [[s[0]] + rest[0]] + rest[1..]
  }

  /** Splitting never loses text: joining the pieces back gives the input. */
  lemma {:induction false} JoinSplit(s: string, sep: char)
    ensures Join(Split(s, sep), sep) == s
  {
    if s != [] {
      JoinSplit(s[1..], sep);
      var rest := Split(s[1..], sep);
      if s[0] == sep {
        assert Split(s, sep) == [""] + rest;
        assert Join(Split(s, sep), sep) == [sep] + Join(rest, sep);
      } else {
        var pieces := Split(s, sep);
        assert pieces[1..] == rest[1..];
        if |rest| == 1 {
          assert pieces == [[s[0]] + rest[0]];
        } else {
          assert Join(rest, sep) == rest[0] + [sep] + Join(rest[1..], sep);
          assert Join(pieces, sep) == [s[0]] + rest[0] + [sep] + Join(rest[1..], sep);
        }
      }
    }
  }

  /** A text without separators stays one piece glued to the first piece of what follows. */
  lemma {:induction false} SplitPlainPrefix(a: string, rest: string, sep: char)
    requires sep !in a
    ensures Split(a + rest, sep) == [a + Split(rest, sep)[0]] + Split(rest, sep)[1..]
  {
    if a != [] {
      SplitPlainPrefix(a[1..], rest, sep);
      assert (a + rest)[1..] == a[1..] + rest;
      assert (a + rest)[0] == a[0];
      assert [a[0]] + (a[1..] + Split(rest, sep)[0]) == a + Split(rest, sep)[0];
    } else {
      var pieces := Split(rest, sep);
      assert a + rest == rest;
      assert a + pieces[0] == pieces[0];
      assert pieces == [pieces[0]] + pieces[1..];
    }
  }

  /**
   * Joining parts that hold no separator and splitting again gives the parts
   * back, provided there is at least one part.
   */
  lemma {:induction false} SplitJoin(parts: seq<string>, sep: char)
    requires |parts| >= 1
    requires forall i :: 0 <= i < |parts| ==> sep !in parts[i]
    ensures Split(Join(parts, sep), sep) == parts
  {
    if |parts| == 1 {
      SplitPlainPrefix(parts[0], "", sep);
      assert parts[0] + "" == parts[0];
    } else {
      var tail := Join(parts[1..], sep);
      SplitJoin(parts[1..], sep);
      SplitPlainPrefix(parts[0], [sep] + tail, sep);
      assert parts[0] + [sep] + tail == parts[0] + ([sep] + tail);
      assert Split([sep] + tail, sep) == [""] + Split(tail, sep) by {
        assert ([sep] + tail)[1..] == tail;
      }
      assert parts[0] + "" == parts[0];
      assert parts == [parts[0]] + parts[1..];
    }
  }

  /** An empty schema does not survive a join followed by a split: it comes back as one unnamed column. */
  lemma EmptyPartsSplitToOne(sep: char)
    ensures Split(Join([], sep), sep) == [""]
  {
  }

  /** The concatenation of all parts, in order. */
  function Concat(parts: seq<string>): string {
    if parts == [] then "" else Concat(parts[..|parts| - 1]) + parts[|parts| - 1]
  }

  lemma {:induction false} ConcatLength(parts: seq<string>, w: nat)
    requires forall i :: 0 <= i < |parts| ==> |parts[i]| == w
    ensures |Concat(parts)| == w * |parts|
  {
    if parts != [] {
      var n := |parts| - 1;
      ConcatLength(parts[..n], w);
      assert w * |parts| == w * n + w;
    }
  }

  /** Parts of one fixed width can be read back from their concatenation at multiples of that width. */
  lemma {:induction false} ConcatCell(parts: seq<string>, w: nat, j: nat)
    requires forall i :: 0 <= i < |parts| ==> |parts[i]| == w
    requires j < |parts|
    ensures |Concat(parts)| == w * |parts|
    ensures w * j + w <= |Concat(parts)|
    ensures Concat(parts)[w * j..w * j + w] == parts[j]
  {
    var n := |parts| - 1;
    var init := parts[..n];
    ConcatLength(parts, w);
    ConcatLength(init, w);
    assert Concat(parts) == Concat(init) + parts[n];
    if j < n {
      ConcatCell(init, w, j);
    } else {
      assert w * j == w * n;
    }
  }
}
