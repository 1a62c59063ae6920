/**
 * The parts of `java.lang.String` the flat-file codec relies on:
 * `split(",")`, `String.join(",", ...)` and `equalsIgnoreCase`.
 */
module JavaString {

  predicate CommaFree(w: string) {
    ',' !in w
  }

  predicate AllCommaFree(fs: seq<string>) {
    forall i :: 0 <= i < |fs| ==> CommaFree(fs[i])
  }

  /** The text between consecutive commas of `s`, every empty piece included. */
  function Pieces(s: string): (r: seq<string>)
    ensures |r| >= 1 && AllCommaFree(r)
    decreases |s|
  {
    if s == [] then [[]]
    else
      var rest := Pieces(s[1..]);
      if s[0] == ',' then [[]] + rest
      else [[s[0]] + rest[0]] + rest[1..]
  }

  /** `fs` without its trailing run of empty strings. */
  function DropTrailingEmpty(fs: seq<string>): (r: seq<string>)
    ensures r <= fs
    ensures r == [] || r[|r| - 1] != []
    ensures forall i :: |r| <= i < |fs| ==> fs[i] == []
  {
    if fs == [] then []
    else if fs[|fs| - 1] == [] then DropTrailingEmpty(fs[..|fs| - 1])
    else fs
  }

  /**
   * Java `s.split(",")` (limit 0): a string without a comma is its own single
   * field, so the empty line gives one empty field; otherwise the pieces between
   * commas, leading and middle empty pieces kept, trailing ones dropped.
   */
  function Split(s: string): (r: seq<string>)
    ensures AllCommaFree(r)
    ensures ',' in s ==> r == [] || r[|r| - 1] != []
    ensures ',' !in s ==> r == [s]
  {
    if ',' !in s then [s]
    else
      var p := Pieces(s);
      var r := DropTrailingEmpty(p);
      assert forall i :: 0 <= i < |r| ==> r[i] == p[i];
      r
  }

  function Last(fs: seq<string>): string
    requires fs != []
  {
    fs[|fs| - 1]
  }

  /**
   * `String.join(",", fs)`: the line starts with the first field, a comma
   * follows it when there is a second, and the line ends with the last field.
   */
  function Join(fs: seq<string>): (r: string)
    ensures fs == [] ==> r == []
    ensures fs != [] ==> fs[0] <= r
    ensures |fs| > 1 ==> |fs[0]| < |r| && r[|fs[0]|] == ','
  {
    if fs == [] then []
    else if |fs| == 1 then fs[0]
    else
      var rest := Join(fs[1..]);
      fs[0] + [','] + rest
  }

  /** ASCII upper-casing; for the letters of the literal `NULL` it agrees with Java's case folding. */
  function UpperAscii(c: char): char
  {
    if 'a' <= c <= 'z' then (c as int - 'a' as int + 'A' as int) as char else c
  }

  /**
   * `a.equalsIgnoreCase(b)`: reflexive, only for texts of the same length, and
   * against an upper-case text such as `NULL` it holds exactly when upper-casing
   * `b` gives that text.
   */
  function EqualsIgnoreCase(a: string, b: string): (r: bool)
    ensures a == b ==> r
    ensures r ==> |a| == |b|
    ensures (forall i :: 0 <= i < |a| ==> UpperAscii(a[i]) == a[i]) ==>
      (r <==> |a| == |b| && forall i :: 0 <= i < |b| ==> UpperAscii(b[i]) == a[i])
  {
    |a| == |b| && forall i :: 0 <= i < |a| ==> UpperAscii(a[i]) == UpperAscii(b[i])
  }

  // ---- Lemmas: what split and join promise each other ----

  lemma {:induction false} PiecesOfCommaFreePrefix(w: string, rest: string)
    requires CommaFree(w)
    ensures Pieces(w + rest) == [w + Pieces(rest)[0]] + Pieces(rest)[1..]
    decreases |w|
  {
    if w == [] {
      var r := Pieces(rest);
      assert w + rest == rest && w + r[0] == r[0];
      assert [r[0]] + r[1..] == r;
    } else {
      var s := w + rest;
      assert s[0] == w[0] && s[1..] == w[1..] + rest;
      PiecesOfCommaFreePrefix(w[1..], rest);
      assert [w[0]] + (w[1..] + Pieces(rest)[0]) == w + Pieces(rest)[0];
    }
  }

  /** Splitting a join of comma-free fields at every comma gives the fields back. */
  lemma {:induction false} PiecesOfJoin(fs: seq<string>)
    requires |fs| > 0 && AllCommaFree(fs)
    ensures Pieces(Join(fs)) == fs
  {
    if |fs| == 1 {
      PiecesOfCommaFreePrefix(fs[0], []);
      assert fs[0] + [] == fs[0];
    } else {
      var t := Join(fs[1..]);
      PiecesOfJoin(fs[1..]);
      assert Pieces([','] + t) == [[]] + Pieces(t) by {
        assert ([','] + t)[1..] == t;
      }
      PiecesOfCommaFreePrefix(fs[0], [','] + t);
      assert fs[0] + [','] + t == fs[0] + ([','] + t);
      assert fs[0] + [] == fs[0];
      assert [fs[0]] + fs[1..] == fs;
    }
  }

  /**
   * Round trip of `split` over `join`: it holds exactly when no field holds a
   * comma and the last field is not empty.
   */
  lemma SplitJoin(fs: seq<string>)
    requires |fs| > 0 && AllCommaFree(fs) && Last(fs) != []
    ensures Split(Join(fs)) == fs
  {
    PiecesOfJoin(fs);
    if |fs| > 1 {
      assert Join(fs)[|fs[0]|] == ',';
    }
  }

  lemma ConcatAssoc(a: string, b: string, c: string)
    ensures (a + b) + c == a + (b + c)
  {
  }

  lemma JoinUnfold(fs: seq<string>)
    requires |fs| > 1
    ensures Join(fs) == fs[0] + ([','] + Join(fs[1..]))
  {
    ConcatAssoc(fs[0], [','], Join(fs[1..]));
  }

  lemma JoinConsHead(x: string, fs: seq<string>)
    requires |fs| >= 1
    ensures Join([x + fs[0]] + fs[1..]) == x + Join(fs)
  {
    var g := [x + fs[0]] + fs[1..];
    assert |g| == |fs| && g[0] == x + fs[0] && g[1..] == fs[1..];
    if |fs| > 1 {
      JoinUnfold(g);
      JoinUnfold(fs);
      ConcatAssoc(x, fs[0], [','] + Join(fs[1..]));
    }
  }

  /** Joining the pieces of a string restores it. */
  lemma {:induction false} JoinPieces(s: string)
    ensures Join(Pieces(s)) == s
    decreases |s|
  {
    if s != [] {
      var rest := Pieces(s[1..]);
      JoinPieces(s[1..]);
      if s[0] == ',' {
        assert ([[]] + rest)[1..] == rest;
        assert s == [','] + s[1..];
      } else {
        JoinConsHead([s[0]], rest);
        assert s == [s[0]] + s[1..];
      }
    }
  }

  /** A string is determined by its pieces: no two texts cut into the same fields. */
  lemma PiecesInjective(a: string, b: string)
    requires Pieces(a) == Pieces(b)
    ensures a == b
  {
    JoinPieces(a);
    JoinPieces(b);
  }

  lemma {:induction false} JoinSnoc(fs: seq<string>, x: string)
    requires |fs| >= 1
    ensures Join(fs + [x]) == Join(fs) + [','] + x
  {
    if |fs| > 1 {
      assert (fs + [x])[1..] == fs[1..] + [x];
      JoinSnoc(fs[1..], x);
    }
  }

  lemma {:induction false} JoinDropTrailing(fs: seq<string>)
    ensures Join(DropTrailingEmpty(fs)) <= Join(fs)
    ensures forall i :: |Join(DropTrailingEmpty(fs))| <= i < |Join(fs)| ==> Join(fs)[i] == ','
    decreases |fs|
  {
    if fs != [] && fs[|fs| - 1] == [] {
      var init := fs[..|fs| - 1];
      JoinDropTrailing(init);
      if init != [] {
        assert fs == init + [[]];
        JoinSnoc(init, []);
      }
    }
  }

  /**
   * What `split` loses: joining its fields gives back a prefix of the line, and
   * the rest of the line is nothing but commas (the dropped trailing empty fields).
   */
  lemma JoinSplit(s: string)
    ensures Join(Split(s)) <= s
    ensures forall i :: |Join(Split(s))| <= i < |s| ==> s[i] == ','
  {
    if ',' in s {
      JoinPieces(s);
      JoinDropTrailing(Pieces(s));
    }
  }
}
