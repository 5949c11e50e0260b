/**
  Go's lexical path handling on Unix (`path/filepath` Clean, Join and Base).

  A path string is read as its rootedness plus its elements, the non-empty
  pieces between slashes; cleaning walks the elements with a stack.
 */
module GoPath {
  import opened GoStrings

  predicate Rooted(s: string) {
    |s| > 0 && s[0] == '/'
  }

  /** Elements are non-empty and slash-free. */
  predicate ElemsWellFormed(e: seq<string>) {
    forall i :: 0 <= i < |e| ==> e[i] != "" && '/' !in e[i]
  }

  /** The pieces that are not empty, in order. */
  function NonEmpty(xs: seq<string>): seq<string> {
    if xs == [] then []
    else if xs[0] == "" then NonEmpty(xs[1..])
    else [xs[0]] + NonEmpty(xs[1..])
  }

  /** Dropping the empty pieces leaves only non-empty pieces, each without a character no piece had. */
  lemma {:induction false} NonEmptyPieces(xs: seq<string>, c: char)
    requires forall i :: 0 <= i < |xs| ==> c !in xs[i]
    ensures forall i :: 0 <= i < |NonEmpty(xs)| ==> NonEmpty(xs)[i] != "" && c !in NonEmpty(xs)[i]
    decreases |xs|
  {
    if xs != [] {
      NonEmptyPieces(xs[1..], c);
    }
  }

  /** The elements of a path string, in order. */
  function Elems(s: string): (e: seq<string>)
    ensures ElemsWellFormed(e)
  {
    NonEmptyPieces(Split(s, '/'), '/');
    NonEmpty(Split(s, '/'))
  }

  // ---------------------------------------------------------------------------
  // Cleaning

  /** One element of Go's Clean: drop ".", let ".." cancel the last real element. */
  function Step(rooted: bool, stack: seq<string>, x: string): seq<string> {
    if x == "." then stack
    else if x == ".." then
      if |stack| > 0 && stack[|stack| - 1] != ".." then stack[..|stack| - 1]
      else if rooted then stack
      else stack + [".."]
    else stack + [x]
  }

  function Walk(rooted: bool, stack: seq<string>, xs: seq<string>): seq<string>
    decreases |xs|
  {
    if xs == [] then stack else Walk(rooted, Step(rooted, stack, xs[0]), xs[1..])
  }

  /**
    The shape of a cleaned element list: no empty, "." or slashed element, and
    ".." only as a leading run of a relative path.
   */
  predicate Cleaned(rooted: bool, e: seq<string>) {
    && ElemsWellFormed(e)
    && (forall i :: 0 <= i < |e| ==> e[i] != ".")
    && (forall i :: 0 <= i < |e| && e[i] == ".." ==> !rooted)
    && (forall i, j :: 0 <= j < i < |e| && e[i] == ".." ==> e[j] == "..")
  }

  /** The cleaned elements of a path string. */
  function CleanElems(s: string): seq<string> {
    Walk(Rooted(s), [], Elems(s))
  }

  function Render(rooted: bool, e: seq<string>): string {
    if rooted then "/" + Join(e, '/')
    else if e == [] then "."
    else Join(e, '/')
  }

  /** filepath.Clean */
  function Clean(s: string): string {
    Render(Rooted(s), CleanElems(s))
  }

  /** filepath.Join of two elements. */
  function JoinPath(a: string, b: string): string {
    if a != "" then Clean(a + "/" + b)
    else if b != "" then Clean(b)
    else ""
  }

  /** filepath.Join of any number of elements: empty leading elements are skipped. */
  function JoinAll(elems: seq<string>): string {
    if elems == [] then ""
    else if elems[0] == "" then JoinAll(elems[1..])
    else Clean(Join(elems, '/'))
  }

  /** filepath.Base: the last element, "." for the empty path, "/" for slashes only. */
  function Base(s: string): (r: string)
    ensures r != ""
    ensures '/' in r ==> r == "/"
  {
    if s == "" then "."
    else
      var t := TrimRight(s, '/');
      if t == "" then "/"
      else AfterLastSlash(t)
  }

  /** The text after the last slash, found by scanning back from the end. */
  function AfterLastSlash(t: string): (r: string)
    ensures '/' !in r
    ensures t != [] && t[|t| - 1] != '/' ==> r != ""
    ensures |r| <= |t| && r == t[|t| - |r|..]
    ensures |r| < |t| ==> t[|t| - |r| - 1] == '/'
  {
    if t == [] || t[|t| - 1] == '/' then ""
    else AfterLastSlash(t[..|t| - 1]) + [t[|t| - 1]]
  }

  // ---------------------------------------------------------------------------
  // Lemmas about the walk

  lemma StepCleaned(rooted: bool, stack: seq<string>, x: string)
    requires Cleaned(rooted, stack)
    requires x != "" && '/' !in x
    ensures Cleaned(rooted, Step(rooted, stack, x))
  {
    var r := Step(rooted, stack, x);
    if x == ".." && !(|stack| > 0 && stack[|stack| - 1] != "..") && !rooted {
      assert forall j :: 0 <= j < |stack| ==> stack[j] == ".." by {
        if |stack| > 0 {
          assert stack[|stack| - 1] == "..";
        }
      }
    }
  }

  lemma {:induction false} WalkCleaned(rooted: bool, stack: seq<string>, xs: seq<string>)
    requires Cleaned(rooted, stack) && ElemsWellFormed(xs)
    ensures Cleaned(rooted, Walk(rooted, stack, xs))
    decreases |xs|
  {
    if xs != [] {
      StepCleaned(rooted, stack, xs[0]);
      WalkCleaned(rooted, Step(rooted, stack, xs[0]), xs[1..]);
    }
  }

  /** Walking a concatenation is walking the parts one after the other. */
  lemma {:induction false} WalkAppend(rooted: bool, stack: seq<string>, xs: seq<string>, ys: seq<string>)
    ensures Walk(rooted, stack, xs + ys) == Walk(rooted, Walk(rooted, stack, xs), ys)
    decreases |xs|
  {
    if xs != [] {
      assert (xs + ys)[0] == xs[0];
      assert (xs + ys)[1..] == xs[1..] + ys;
      WalkAppend(rooted, Step(rooted, stack, xs[0]), xs[1..], ys);
    } else {
      assert xs + ys == ys;
    }
  }

  /** Walking an already clean list from a prefix of it rebuilds it. */
  lemma {:induction false} WalkCleanedIsIdentity(rooted: bool, e: seq<string>, k: nat)
    requires Cleaned(rooted, e) && k <= |e|
    ensures Walk(rooted, e[..k], e[k..]) == e
    decreases |e| - k
  {
    if k < |e| {
      var x := e[k];
      if x == ".." {
        if k > 0 {
          assert e[..k][k - 1] == "..";
        }
      }
      assert Step(rooted, e[..k], x) == e[..k + 1];
      assert e[k..][1..] == e[k + 1..];
      WalkCleanedIsIdentity(rooted, e, k + 1);
    } else {
      assert e[..k] == e;
    }
  }

  /** Elements other than "." and ".." are pushed as they are. */
  lemma {:induction false} WalkPlain(rooted: bool, stack: seq<string>, xs: seq<string>)
    requires forall i :: 0 <= i < |xs| ==> xs[i] != "." && xs[i] != ".."
    ensures Walk(rooted, stack, xs) == stack + xs
    decreases |xs|
  {
    if xs != [] {
      WalkPlain(rooted, stack + [xs[0]], xs[1..]);
      SeqAssoc(stack, [xs[0]], xs[1..]);
      assert xs == [xs[0]] + xs[1..];
    }
  }

  lemma CleanElemsCleaned(s: string)
    ensures Cleaned(Rooted(s), CleanElems(s))
  {
    WalkCleaned(Rooted(s), [], Elems(s));
  }

  // ---------------------------------------------------------------------------
  // Lemmas about parsing and rendering

  lemma {:induction false} NonEmptyAppend(xs: seq<string>, ys: seq<string>)
    ensures NonEmpty(xs + ys) == NonEmpty(xs) + NonEmpty(ys)
    decreases |xs|
  {
    if xs != [] {
      assert (xs + ys)[0] == xs[0];
      assert (xs + ys)[1..] == xs[1..] + ys;
      NonEmptyAppend(xs[1..], ys);
    } else {
      assert xs + ys == ys;
    }
  }

  lemma {:induction false} NonEmptyOfNonEmpty(xs: seq<string>)
    requires forall i :: 0 <= i < |xs| ==> xs[i] != ""
    ensures NonEmpty(xs) == xs
    decreases |xs|
  {
    if xs != [] {
      NonEmptyOfNonEmpty(xs[1..]);
      assert xs == [xs[0]] + xs[1..];
    }
  }

  lemma SeqAssoc<T>(x: seq<T>, y: seq<T>, z: seq<T>)
    ensures x + (y + z) == (x + y) + z
  {
  }

  lemma ConsInit<T>(x: T, ys: seq<T>)
    requires |ys| >= 1
    ensures ([x] + ys)[..|ys|] == [x] + ys[..|ys| - 1]
  {
  }

  lemma LastOfCons<T>(x: T, ys: seq<T>)
    requires |ys| >= 1
    ensures ([x] + ys)[|[x] + ys| - 1] == ys[|ys| - 1]
  {
  }

  /** A separator between two strings splits them apart. */
  lemma {:induction false} SplitConcat(a: string, sep: char, b: string)
    ensures Split(a + [sep] + b, sep) == Split(a, sep) + Split(b, sep)
    decreases |a|
  {
    if sep !in a {
      SplitAt(a, sep, b);
    } else {
      var i := IndexOf(a, sep);
      var a1, a2 := a[..i], a[i + 1..];
      var tail := a2 + [sep] + b;
      assert a == a1 + [sep] + a2;
      assert a + [sep] + b == a1 + [sep] + tail;
      SplitAt(a1, sep, tail);
      SplitConcat(a2, sep, b);
      SplitAt(a1, sep, a2);
      var pa, pa2, pb := Split(a, sep), Split(a2, sep), Split(b, sep);
      assert pa == [a1] + pa2;
      assert Split(tail, sep) == pa2 + pb;
      assert Split(a + [sep] + b, sep) == [a1] + (pa2 + pb);
      SeqAssoc([a1], pa2, pb);
    }
  }

  /** The elements of `a/b` are those of `a` followed by those of `b`. */
  lemma ElemsConcat(a: string, b: string)
    ensures Elems(a + "/" + b) == Elems(a) + Elems(b)
  {
    SplitConcat(a, '/', b);
    NonEmptyAppend(Split(a, '/'), Split(b, '/'));
  }

  /** A trailing slash changes nothing once the path is cleaned. */
  lemma TrailingSlash(c: string)
    requires c != ""
    ensures Clean(c + "/") == Clean(c)
  {
    assert c + "/" + "" == c + "/";
    ElemsConcat(c, "");
    assert Split("", '/') == [""];
    assert NonEmpty([""]) == [];
    assert Elems(c) + [] == Elems(c);
    assert (c + "/")[0] == c[0];
  }

  /** A single element parses to itself. */
  lemma ElemsOfElem(x: string)
    requires x != "" && '/' !in x
    ensures Elems(x) == [x]
  {
    assert Split(x, '/') == [x];
    assert [x][1..] == [];
    assert NonEmpty([x]) == [x] + NonEmpty([]);
  }

  /** A single plain element is its own clean form. */
  lemma CleanOfElement(x: string)
    requires x != "" && '/' !in x && x != "." && x != ".."
    ensures CleanElems(x) == [x] && Clean(x) == x
  {
    ElemsOfElem(x);
    assert !Rooted(x) by {
      assert x[0] in x;
    }
    assert Walk(false, [], [x]) == Walk(false, [x], []);
  }

  /** Rendering well-formed elements and parsing them back is the identity. */
  lemma ElemsOfRender(rooted: bool, e: seq<string>)
    requires ElemsWellFormed(e)
    requires rooted || e != []
    ensures Elems(Render(rooted, e)) == e
    ensures Rooted(Render(rooted, e)) == rooted
  {
    if e == [] {
      RootElems();
    } else {
      var j := Join(e, '/');
      SplitJoin(e, '/');
      NonEmptyOfNonEmpty(e);
      if rooted {
        SlashPrefix(j);
        assert Render(rooted, e) == "/" + j;
      } else {
        JoinStartsWithFirst(e);
      }
    }
  }

  /** The root has no elements. */
  lemma RootElems()
    ensures Elems("/") == [] && Rooted("/")
  {
    assert "/" == "" + "/" + "";
    SplitAt("", '/', "");
    assert Split("/", '/') == ["", ""];
    assert NonEmpty(["", ""]) == NonEmpty([""]) == NonEmpty([]);
  }

  /** A leading slash adds one empty piece, which is dropped. */
  lemma SlashPrefix(j: string)
    ensures Elems("/" + j) == NonEmpty(Split(j, '/'))
  {
    assert "/" + j == "" + "/" + j;
    SplitAt("", '/', j);
    assert ([""] + Split(j, '/'))[1..] == Split(j, '/');
  }

  lemma JoinHasFirst(e: seq<string>, sep: char)
    requires e != []
    ensures e[0] <= Join(e, sep)
  {
  }

  lemma CleanNonEmpty(s: string)
    ensures Clean(s) != ""
  {
    var e := CleanElems(s);
    CleanElemsCleaned(s);
    if e != [] {
      JoinHasFirst(e, '/');
    }
  }

  lemma JoinStartsWithFirst(e: seq<string>)
    requires ElemsWellFormed(e) && e != []
    ensures Join(e, '/') != [] && Join(e, '/')[0] == e[0][0]
  {
  }

  /** Clean is idempotent. */
  lemma CleanIdempotent(s: string)
    ensures Clean(Clean(s)) == Clean(s)
  {
    var r, e := Rooted(s), CleanElems(s);
    CleanElemsCleaned(s);
    if !r && e == [] {
      assert Clean(s) == ".";
      assert Elems(".") == ["."];
      assert Rooted(".") == false;
      assert CleanElems(".") == [];
    } else {
      ElemsOfRender(r, e);
      WalkCleanedIsIdentity(r, e, 0);
      assert e[..0] == [] && e[0..] == e;
    }
  }

  // ---------------------------------------------------------------------------
  // String prefixes versus element prefixes

  /**
    With `d` non-empty, the joined string of `e` starts with the joined string
    of `d` plus a slash exactly when `d` is a proper prefix of `e`.
   */
  lemma {:induction false} JoinPrefix(d: seq<string>, e: seq<string>)
    requires d != [] && ElemsWellFormed(d) && ElemsWellFormed(e)
    ensures (Join(d, '/') + "/" <= Join(e, '/')) <==> (|d| < |e| && e[..|d|] == d)
    decreases |d|
  {
    var p := Join(d, '/') + "/";
    if |e| == 0 {
      assert |p| > 0;
    } else if |e| == 1 {
      assert p[|p| - 1] == '/';
      assert '/' !in Join(e, '/');
    } else if |d| == 1 {
      HeadPrefix(e[0], Join(e[1..], '/'), d[0], "", '/');
      assert p == d[0] + "/" + "";
      assert Join(e, '/') == e[0] + "/" + Join(e[1..], '/');
    } else {
      JoinPrefix(d[1..], e[1..]);
      HeadPrefix(e[0], Join(e[1..], '/'), d[0], Join(d[1..], '/') + "/", '/');
      assert p == d[0] + "/" + (Join(d[1..], '/') + "/");
      assert Join(e, '/') == e[0] + "/" + Join(e[1..], '/');
      if |d| < |e| {
        assert e[..|d|] == [e[0]] + e[1..][..|d| - 1];
        assert d == [d[0]] + d[1..];
      }
    }
  }

  /**
    The rendered path of `e` starts with the rendered path of `d` plus a slash
    exactly when `d` is a proper element prefix of `e` (same rootedness, `d` non-empty).
   */
  lemma RenderPrefix(rooted: bool, d: seq<string>, e: seq<string>)
    requires d != [] && ElemsWellFormed(d) && ElemsWellFormed(e)
    ensures HasPrefix(Render(rooted, e), Render(rooted, d) + "/") <==> (|d| < |e| && e[..|d|] == d)
  {
    JoinPrefix(d, e);
    if rooted {
      var pd, pe := Join(d, '/') + "/", Join(e, '/');
      assert Render(rooted, d) + "/" == "/" + pd;
      assert Render(rooted, e) == "/" + pe;
      if "/" + pd <= "/" + pe {
        assert forall k :: 0 <= k < |pd| ==> pd[k] == ("/" + pd)[k + 1] == ("/" + pe)[k + 1] == pe[k];
        assert pd <= pe;
      }
    } else if e == [] {
      assert |Render(rooted, d) + "/"| > 1;
    }
  }
}
