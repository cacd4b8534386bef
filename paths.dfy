/**
 * Path strings as the preprocessing scripts handle them on Windows, where the
 * scripts were written: `str(Path)` joins components with a backslash, the
 * scripts normalise to forward slashes with `replace("\\", "/")`, and
 * `pathlib` drops empty and `.` components.
 */
module Paths {
  import opened Wrappers
  import opened Strings

  const WinSep: char := '\\'

  /** `p.replace("\\", "/")`. */
  function Normalize(p: string): (r: string)
    ensures |r| == |p| && WinSep !in r
  {
    ReplaceChar(p, WinSep, '/')
  }

  /** A component `pathlib` keeps: not empty, not `.`, free of both separators. */
  predicate ProperComponent(c: string) {
    c != [] && c != "." && '/' !in c && WinSep !in c
  }

  /** The pieces of a split that `pathlib` keeps. */
  function Proper(parts: seq<string>): (r: seq<string>)
    ensures forall k :: 0 <= k < |r| ==> r[k] != [] && r[k] != "."
    ensures |r| <= |parts|
  {
    if parts == [] then []
    else (if parts[0] != [] && parts[0] != "." then [parts[0]] else []) + Proper(parts[1..])
  }

  /** The components of a path as `Path(p).parts` sees them (no drive or root). */
  function Components(p: string): (r: seq<string>)
    ensures forall k :: 0 <= k < |r| ==> ProperComponent(r[k])
  {
    var parts := Split(Normalize(p), '/');
    assert forall k :: 0 <= k < |parts| ==> '/' !in parts[k] && WinSep !in parts[k] by {
      forall k | 0 <= k < |parts|
        ensures WinSep !in parts[k]
      {
        SplitPieceIn(Normalize(p), '/', k);
      }
    }
    ProperKeepsChars(parts);
    Proper(parts)
  }

  /**
   * The components left once `Path.resolve()` collapses each `..` with the
   * component before it; a `..` with nothing left to cancel stays.
   */
  function Resolve(parts: seq<string>): seq<string> {
    if parts == [] then []
    else
      var prev := Resolve(parts[..|parts| - 1]);
      var c := parts[|parts| - 1];
      if c == ".." && prev != [] && prev[|prev| - 1] != ".." then prev[..|prev| - 1] else prev + [c]
  }

  /** Without a `..` component, resolving changes nothing. */
  lemma {:induction false} ResolvePlain(parts: seq<string>)
    requires forall k :: 0 <= k < |parts| ==> parts[k] != ".."
    ensures Resolve(parts) == parts
  {
    if parts != [] {
      var init := parts[..|parts| - 1];
      ResolvePlain(init);
      assert init + [parts[|parts| - 1]] == parts;
    }
  }

  /** A component followed by `..` cancels out, wherever it stands. */
  lemma {:induction false} ResolveCancel(a: seq<string>, c: string, b: seq<string>)
    requires c != ".."
    ensures Resolve(a + [c, ".."] + b) == Resolve(a + b)
    decreases |b|
  {
    if b == [] {
      assert a + [c, ".."] + b == a + [c, ".."] && a + b == a;
      ResolveCancelLast(a, c);
    } else {
      var b' := b[..|b| - 1];
      ResolveCancel(a, c, b');
      assert a + [c, ".."] + b == (a + [c, ".."] + b') + [b[|b| - 1]];
      assert a + b == (a + b') + [b[|b| - 1]];
      ResolveSnoc(a + [c, ".."] + b', a + b', b[|b| - 1]);
    }
  }

  /** A trailing component followed by `..` cancels out. */
  lemma ResolveCancelLast(a: seq<string>, c: string)
    requires c != ".."
    ensures Resolve(a + [c, ".."]) == Resolve(a)
  {
    var s := a + [c, ".."];
    assert s[..|s| - 1] == a + [c];
    assert (a + [c])[..|a|] == a;
  }

  /** Paths that resolve alike still do after one more component. */
  lemma ResolveSnoc(x: seq<string>, y: seq<string>, e: string)
    requires Resolve(x) == Resolve(y)
    ensures Resolve(x + [e]) == Resolve(y + [e])
  {
    assert (x + [e])[..|x|] == x;
    assert (y + [e])[..|y|] == y;
  }

  /** A character absent from the text is absent from every piece of its split. */
  lemma {:induction false} SplitPieceIn(s: string, sep: char, k: nat)
    requires k < |Split(s, sep)|
    ensures forall c :: c in Split(s, sep)[k] ==> c in s
    decreases |s|
  {
    match IndexOf(s, sep)
    case None =>
    case Some(i) =>
      if k > 0 {
        SplitPieceIn(s[i + 1..], sep, k - 1);
      }
  }

  lemma {:induction false} ProperKeepsChars(parts: seq<string>)
    requires forall k :: 0 <= k < |parts| ==> '/' !in parts[k] && WinSep !in parts[k]
    ensures forall k :: 0 <= k < |Proper(parts)| ==> ProperComponent(Proper(parts)[k])
  {
    if parts != [] {
      ProperKeepsChars(parts[1..]);
    }
  }

  /** `str(Path(*parts))` on Windows. */
  function Render(parts: seq<string>): string {
    Join(parts, [WinSep])
  }

  /** `Path(p).name`: the last kept component, or empty. */
  function Name(p: string): (r: string)
    ensures r == [] || ProperComponent(r)
  {
    var cs := Components(p);
    if cs == [] then [] else cs[|cs| - 1]
  }

  /** `os.path.basename` on Windows: the text after the last separator of either kind. */
  function BaseName(p: string): (r: string)
    ensures '/' !in r && WinSep !in r
    ensures EndsWith(Normalize(p), r)
  {
    AfterLastSlash(Normalize(p))
  }

  /**
   * `os.path.splitext(name)[0]` for a name without separators: the part before
   * the last dot, unless every character before that dot is itself a dot.
   */
  function SplitExtRoot(name: string): (r: string)
    ensures r <= name
  {
    match LastIndexOf(name, '.')
    case None => name
    case Some(i) => if AllDots(name[..i]) then name else name[..i]
  }

  predicate AllDots(s: string) {
    forall k :: 0 <= k < |s| ==> s[k] == '.'
  }

  /**
   * `Path(name).with_suffix(".txt")` on a single component: the suffix is the
   * text from the last dot when that dot is neither first nor last.
   */
  function WithTxtSuffix(name: string): (r: string)
    ensures EndsWith(r, ".txt")
  {
    match LastIndexOf(name, '.')
    case None => name + ".txt"
    case Some(i) => if 0 < i < |name| - 1 then name[..i] + ".txt" else name + ".txt"
  }

  // ----- Lemmas -----------------------------------------------------------

  lemma ReplaceCharAppend(x: string, y: string, a: char, b: char)
    ensures ReplaceChar(x + y, a, b) == ReplaceChar(x, a, b) + ReplaceChar(y, a, b)
  {
    var l, r := ReplaceChar(x + y, a, b), ReplaceChar(x, a, b) + ReplaceChar(y, a, b);
    assert |l| == |r|;
    forall i | 0 <= i < |l| ensures l[i] == r[i] {
      if i < |x| {
        assert (x + y)[i] == x[i];
      } else {
        assert (x + y)[i] == y[i - |x|];
      }
    }
  }

  lemma ReplaceCharAbsent(x: string, a: char, b: char)
    requires a !in x
    ensures ReplaceChar(x, a, b) == x
  {
  }

  /** Joining with backslashes and normalising is joining with slashes. */
  lemma {:induction false} NormalizeRender(parts: seq<string>)
    requires forall k :: 0 <= k < |parts| ==> WinSep !in parts[k]
    ensures Normalize(Render(parts)) == Join(parts, "/")
  {
    if |parts| == 1 {
      ReplaceCharAbsent(parts[0], WinSep, '/');
    } else if |parts| > 1 {
      NormalizeRender(parts[1..]);
      ReplaceCharAppend(parts[0] + [WinSep], Render(parts[1..]), WinSep, '/');
      ReplaceCharAppend(parts[0], [WinSep], WinSep, '/');
      ReplaceCharAbsent(parts[0], WinSep, '/');
    }
  }

  /** Splitting a join gives the pieces back when no piece holds the separator. */
  lemma {:induction false} SplitJoin(parts: seq<string>, sep: char)
    requires |parts| >= 1
    requires forall k :: 0 <= k < |parts| ==> sep !in parts[k]
    ensures Split(Join(parts, [sep]), sep) == parts
  {
    if |parts| == 1 {
      SplitNoSeparator(parts[0], sep);
    } else {
      SplitJoin(parts[1..], sep);
      SplitPrefix(parts[0], sep, Join(parts[1..], [sep]));
    }
  }

  lemma {:induction false} ProperAll(parts: seq<string>)
    requires forall k :: 0 <= k < |parts| ==> parts[k] != [] && parts[k] != "."
    ensures Proper(parts) == parts
  {
    if parts != [] {
      ProperAll(parts[1..]);
    }
  }

  /** Rendering proper components and reading them back is the identity. */
  lemma ComponentsRender(parts: seq<string>)
    requires forall k :: 0 <= k < |parts| ==> ProperComponent(parts[k])
    ensures Components(Render(parts)) == parts
  {
    if parts == [] {
      assert Split(Normalize(Render(parts)), '/') == [""];
    } else {
      NormalizeRender(parts);
      SplitJoin(parts, '/');
      ProperAll(parts);
    }
  }

  /** The name of a rendered path is its last component. */
  lemma NameRender(parts: seq<string>)
    requires |parts| >= 1
    requires forall k :: 0 <= k < |parts| ==> ProperComponent(parts[k])
    ensures Name(Render(parts)) == parts[|parts| - 1]
  {
    ComponentsRender(parts);
  }

  /** A join of two or more pieces is the join of all but the last, the separator, and the last. */
  lemma {:induction false} JoinSnoc(parts: seq<string>, sep: string)
    requires |parts| >= 2
    ensures Join(parts, sep) == Join(parts[..|parts| - 1], sep) + sep + parts[|parts| - 1]
    decreases |parts|
  {
    if |parts| > 2 {
      JoinSnoc(parts[1..], sep);
      assert parts[1..][..|parts| - 2] == parts[..|parts| - 1][1..];
    }
  }

  /** The base name of a rendered path is its last component. */
  lemma BaseNameRender(parts: seq<string>)
    requires |parts| >= 1
    requires forall k :: 0 <= k < |parts| ==> '/' !in parts[k] && WinSep !in parts[k]
    ensures BaseName(Render(parts)) == parts[|parts| - 1]
  {
    NormalizeRender(parts);
    var last := parts[|parts| - 1];
    if |parts| == 1 {
      assert LastIndexOf(last, '/') == None;
    } else {
      JoinSnoc(parts, "/");
      var init := Join(parts[..|parts| - 1], "/");
      assert Join(parts, "/") == (init + "/") + last;
      LastIndexOfAppend(init + "/", last, '/');
      assert LastIndexOf(init + "/", '/') == Some(|init|);
      assert (init + "/" + last)[|init| + 1..] == last;
    }
  }

  /** `os.path.splitext` of `stem.txt` gives back the stem when it is not all dots. */
  lemma SplitExtRootTxt(stem: string)
    requires !AllDots(stem)
    ensures SplitExtRoot(stem + ".txt") == stem
  {
    LastDotOfTxt(stem);
    assert (stem + ".txt")[..|stem|] == stem;
  }

  /** Replacing a suffix keeps everything before the last dot and is idempotent. */
  lemma WithTxtSuffixIdempotent(name: string)
    requires 0 < |name|
    ensures WithTxtSuffix(WithTxtSuffix(name)) == WithTxtSuffix(name)
  {
    var r := WithTxtSuffix(name);
    var stem := r[..|r| - 4];
    assert r == stem + ".txt";
    assert '.' !in r[|r| - 3..];
    LastDotOfTxt(stem);
  }

  lemma LastDotOfTxt(stem: string)
    ensures LastIndexOf(stem + ".txt", '.') == Some(|stem|)
  {
    assert stem + ".txt" == (stem + ".") + "txt";
    LastIndexOfAppend(stem + ".", "txt", '.');
  }

  /** Appending text free of `c` does not move the last `c`. */
  lemma {:induction false} LastIndexOfAppend(a: string, b: string, c: char)
    requires c !in b
    ensures LastIndexOf(a + b, c) == LastIndexOf(a, c)
    decreases |b|
  {
    if b != [] {
      var s := a + b;
      assert s[..|s| - 1] == a + b[..|b| - 1];
      LastIndexOfAppend(a, b[..|b| - 1], c);
    } else {
      assert a + b == a;
    }
  }
}
