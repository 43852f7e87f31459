/** The handful of JavaScript string operations that the main.js round machine
    uses to keep its selection as display text: `split` on a one-character
    separator, `filter(n => n)` and `replace` with a string pattern. `Join` is
    not one of them: it is the closed form of the text that main.js builds by
    appending one name at a time, and main.js never calls `join`. */
module JsText {

  datatype Option<T> = None | Some(value: T)

  /** The parts with one separator between neighbours: the closed form of
      text grown by `text + sep + part`, one part at a time. */
  function Join(parts: seq<string>, sep: char): string
  {
    if |parts| == 0 then ""
    else if |parts| == 1 then parts[0]
    else parts[0] + [sep] + Join(parts[1..], sep)
  }

  /** `s.split(sep)` for a one-character separator: never empty (the empty
      string splits into one empty piece), no piece holds the separator, and
      joining the pieces again gives back `s`. */
  function Split(s: string, sep: char): (parts: seq<string>)
    ensures |parts| >= 1
    ensures forall i :: 0 <= i < |parts| ==> sep !in parts[i]
    ensures Join(parts, sep) == s
  {
    if |s| == 0 then [""]
    else
      var rest := Split(s[1..], sep);
      if s[0] == sep then
        assert ([""] + rest)[1..] == rest;
        [""] + rest
      else
        var parts := [[s[0]] + rest[0]] + rest[1..];
        assert parts[1..] == rest[1..];
        assert |rest| > 1 ==> Join(rest, sep) == rest[0] + [sep] + Join(rest[1..], sep);
        parts
  }

  /** `xs.filter(n => n)`: drops the empty strings and keeps the others (how
      often each is kept: `NonEmptyCounts`; in which order: `NonEmptyAppend`). */
  function NonEmpty(xs: seq<string>): (ys: seq<string>)
    ensures |ys| <= |xs|
    ensures forall i :: 0 <= i < |ys| ==> ys[i] != "" && ys[i] in xs
    ensures (forall i :: 0 <= i < |xs| ==> xs[i] != "") ==> ys == xs
    ensures (forall i :: 0 <= i < |xs| ==> xs[i] == "") ==> ys == []
  {
    if |xs| == 0 then []
    else if xs[0] == "" then NonEmpty(xs[1..])
    else [xs[0]] + NonEmpty(xs[1..])
  }

  /** Every non-empty entry is kept exactly as often as it occurs, and no
      empty one is. */
  lemma {:induction false} NonEmptyCounts(xs: seq<string>)
    ensures multiset(NonEmpty(xs)) == multiset(xs)["" := 0]
  {
    if |xs| > 0 {
      NonEmptyCounts(xs[1..]);
      assert xs == [xs[0]] + xs[1..];
      assert multiset(xs) == multiset([xs[0]]) + multiset(xs[1..]);
      if xs[0] != "" {
        assert NonEmpty(xs) == [xs[0]] + NonEmpty(xs[1..]);
        assert multiset(NonEmpty(xs)) == multiset([xs[0]]) + multiset(NonEmpty(xs[1..]));
      }
    }
  }

  /** Filtering distributes over concatenation, so the kept entries stay in
      their order. */
  lemma {:induction false} NonEmptyAppend(a: seq<string>, b: seq<string>)
    ensures NonEmpty(a + b) == NonEmpty(a) + NonEmpty(b)
  {
    if |a| > 0 {
      assert (a + b)[1..] == a[1..] + b;
      NonEmptyAppend(a[1..], b);
    } else {
      assert a + b == b;
    }
  }

  /** The position of the first `c` in `s` (`s.indexOf(c)` when it is found). */
  function FirstIndex(s: string, c: char): (k: nat)
    requires c in s
    ensures k < |s| && s[k] == c && c !in s[..k]
  {
    if s[0] == c then 0
    else
      var k := 1 + FirstIndex(s[1..], c);
      assert s[..k] == [s[0]] + s[1..][..k - 1];
      k
  }

  /** `s.replace(c, '')` with a one-character string pattern: JavaScript
      removes only the FIRST occurrence, and a string without `c` is kept. */
  function RemoveFirst(s: string, c: char): (r: string)
    ensures c !in s ==> r == s
    ensures c in s ==> r == s[..FirstIndex(s, c)] + s[FirstIndex(s, c) + 1..]
  {
    if |s| == 0 then ""
    else if s[0] == c then s[1..]
    else
      var rest := RemoveFirst(s[1..], c);
      assert c in s ==> c in s[1..] by {
        if c in s {
          var k := FirstIndex(s, c);
          assert s[1..][k - 1] == c;
        }
      }
      assert c in s[1..] ==>
        var k := FirstIndex(s[1..], c);
        && FirstIndex(s, c) == k + 1
        && [s[0]] + s[1..][..k] == s[..k + 1]
        && s[1..][k + 1..] == s[k + 2..];
      [s[0]] + rest
  }

  /** Putting `c` back at the position it was removed from gives `s` again. */
  lemma RemoveFirstRestores(s: string, c: char)
    requires c in s
    ensures var k, r := FirstIndex(s, c), RemoveFirst(s, c);
            k <= |r| && c !in r[..k] && s == r[..k] + [c] + r[k..]
  {
    var k, r := FirstIndex(s, c), RemoveFirst(s, c);
    assert r[..k] == s[..k] && r[k..] == s[k + 1..];
    assert s == s[..k] + [s[k]] + s[k + 1..];
  }

  /** A piece that has no separator splits into itself. */
  lemma {:induction false} SplitWithoutSeparator(w: string, sep: char)
    requires sep !in w
    ensures Split(w, sep) == [w]
  {
    if |w| > 0 {
      SplitWithoutSeparator(w[1..], sep);
    }
  }

  /** Splitting `w + sep + t`, where `w` has no separator, yields `w` followed
      by the pieces of `t`. */
  lemma {:induction false} SplitAfterPiece(w: string, t: string, sep: char)
    requires sep !in w
    ensures Split(w + [sep] + t, sep) == [w] + Split(t, sep)
  {
    var s := w + [sep] + t;
    if |w| == 0 {
      assert s == [sep] + t;
      assert s[1..] == t;
    } else {
      assert s[0] == w[0];
      assert s[1..] == w[1..] + [sep] + t;
      SplitAfterPiece(w[1..], t, sep);
      assert [w[0]] + w[1..] == w;
    }
  }

  /** `s.split(sep)` has a second piece exactly when `s` holds `sep`; the
      first piece is the text before the first `sep`, and the second is the
      text after it, up to the next `sep` or the end. */
  lemma SplitFirstPieces(s: string, sep: char)
    ensures |Split(s, sep)| == 1 <==> sep !in s
    ensures |Split(s, sep)| > 1 ==>
              var w, t := Split(s, sep)[0], Split(s, sep)[1];
              && |w| + 1 + |t| <= |s| && s[..|w|] == w && s[|w|] == sep
              && s[|w| + 1..|w| + 1 + |t|] == t
              && (|w| + 1 + |t| == |s| || s[|w| + 1 + |t|] == sep)
  {
    var parts := Split(s, sep);
    if |parts| > 1 {
      var w, t := parts[0], parts[1];
      var tail := Join(parts[1..], sep);
      assert s == w + [sep] + tail;
      assert t <= tail && (|tail| == |t| || tail[|t|] == sep) by {
        if |parts| > 2 {
          assert parts[1..][1..] == parts[2..];
          assert tail == t + [sep] + Join(parts[2..], sep);
        }
      }
      PieceAfter(s, w, tail, t, sep);
    } else {
      assert s == parts[0];
    }
  }

  /** In `w + sep + tail`, a prefix `t` of `tail` that ends at a `sep` or at
      the end sits right after the separator. */
  lemma PieceAfter(s: string, w: string, tail: string, t: string, sep: char)
    requires s == w + [sep] + tail && t <= tail && (|tail| == |t| || tail[|t|] == sep)
    ensures |w| + 1 + |t| <= |s| && s[|w| + 1..|w| + 1 + |t|] == t
    ensures |w| + 1 + |t| == |s| || s[|w| + 1 + |t|] == sep
    ensures s[..|w|] == w && s[|w|] == sep
  {
    var k := |w| + 1;
    assert s[k..] == tail;
    assert s[k..k + |t|] == s[k..][..|t|];
  }

  /** Round trip: joining pieces that hold no separator and splitting again
      gives back exactly the pieces. */
  lemma {:induction false} SplitJoin(parts: seq<string>, sep: char)
    requires |parts| >= 1
    requires forall i :: 0 <= i < |parts| ==> sep !in parts[i]
    ensures Split(Join(parts, sep), sep) == parts
  {
    if |parts| == 1 {
      SplitWithoutSeparator(parts[0], sep);
    } else {
      SplitJoin(parts[1..], sep);
      SplitAfterPiece(parts[0], Join(parts[1..], sep), sep);
      assert [parts[0]] + parts[1..] == parts;
    }
  }

  /** Joining with one more piece at the end adds the separator and that piece. */
  lemma {:induction false} JoinSnoc(parts: seq<string>, x: string, sep: char)
    requires |parts| >= 1
    ensures Join(parts + [x], sep) == Join(parts, sep) + [sep] + x
  {
    if |parts| > 1 {
      assert (parts + [x])[1..] == parts[1..] + [x];
      JoinSnoc(parts[1..], x, sep);
    } else {
      assert (parts + [x])[1..] == [x];
    }
  }
}
