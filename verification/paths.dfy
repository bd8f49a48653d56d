/**
 Paths as sequences of components, the component-wise ordering that
 `PathBuf`'s `Ord` and walkdir's `sort_by_key(path)` use, and the path
 arithmetic of the copy loops: re-rooting a walked path under a new root.
 */
module Paths {
  import opened Base

  /** An absolute path as its components; `[]` is the filesystem root "/". */
  type Path = seq<string>

  /** `q` is `p` or lies beneath it. */
  predicate Under(q: Path, p: Path) {
    |p| <= |q| && q[..|p|] == p
  }

  /** `Path::parent`: the root has none. */
  function Parent(p: Path): (r: Option<Path>)
    ensures r.None? <==> |p| == 0
    ensures r.Some? ==> |r.value| + 1 == |p| && Under(p, r.value)
  {
    if |p| == 0 then None else Some(p[..|p| - 1])
  }

  /** The directory holding a non-root path. */
  function DirOf(p: Path): Path
    requires |p| > 0
  {
    p[..|p| - 1]
  }

  /** walkdir's `DirEntry::file_name`: the last component, or the whole path for "/". */
  function FileName(p: Path): string {
    if |p| == 0 then "/" else p[|p| - 1]
  }

  /**
   The walked path `p`, whose first `base` components are the walk's root,
   moved under `target`: `target.join(p.iter().skip(base).collect())`.
   */
  function Reroot(p: Path, base: nat, target: Path): (r: Path)
    requires base <= |p|
    ensures Under(r, target)
    ensures r[|target|..] == p[base..]
  {
    target + p[base..]
  }

  /** Re-rooting keeps the parent relation: the image of a parent is the parent of the image. */
  lemma RerootParent(p: Path, base: nat, target: Path)
    requires base < |p|
    ensures DirOf(Reroot(p, base, target)) == Reroot(DirOf(p), base, target)
  {
    assert (target + p[base..])[..|target| + |p| - base - 1] == target + p[base..|p| - 1];
  }

  /** Two paths below the same root that re-root to the same place are the same path. */
  lemma RerootInjective(p: Path, q: Path, root: Path, target: Path)
    requires Under(p, root) && Under(q, root)
    requires Reroot(p, |root|, target) == Reroot(q, |root|, target)
    ensures p == q
  {
    var rp := Reroot(p, |root|, target);
    assert p[|root|..] == rp[|target|..] == q[|root|..];
    assert p == p[..|root|] + p[|root|..];
    assert q == q[..|root|] + q[|root|..];
  }

  /** Two prefixes of one path are comparable. */
  lemma PrefixesComparable(a: Path, b: Path, q: Path)
    requires Under(q, a) && Under(q, b)
    ensures Under(a, b) || Under(b, a)
  {
    if |a| <= |b| {
      assert b[..|a|] == q[..|a|] == a;
    } else {
      assert a[..|b|] == q[..|b|] == b;
    }
  }

  // ---------------------------------------------------------------------------
  // Lexicographic order, shared by `String`'s and `PathBuf`'s derived `Ord`.
  // ---------------------------------------------------------------------------

  /** Strict lexicographic order of sequences under an element order `lt`. */
  predicate LexLt<T(==)>(a: seq<T>, b: seq<T>, lt: (T, T) -> bool)
    decreases |a|
  {
    if |a| == 0 then |b| > 0
    else |b| > 0 && (lt(a[0], b[0]) || (a[0] == b[0] && LexLt(a[1..], b[1..], lt)))
  }

  ghost predicate StrictTotal<T(!new)>(lt: (T, T) -> bool) {
    && (forall x :: !lt(x, x))
    && (forall x, y, z :: lt(x, y) && lt(y, z) ==> lt(x, z))
    && (forall x, y :: x == y || lt(x, y) || lt(y, x))
  }

  lemma {:induction false} LexIrreflexive<T(!new)>(a: seq<T>, lt: (T, T) -> bool)
    requires StrictTotal(lt)
    ensures !LexLt(a, a, lt)
    decreases |a|
  {
    if |a| > 0 {
      LexIrreflexive(a[1..], lt);
    }
  }

  lemma {:induction false} LexTransitive<T(!new)>(a: seq<T>, b: seq<T>, c: seq<T>, lt: (T, T) -> bool)
    requires StrictTotal(lt)
    requires LexLt(a, b, lt) && LexLt(b, c, lt)
    ensures LexLt(a, c, lt)
    decreases |a|
  {
    if |a| > 0 && a[0] == b[0] && b[0] == c[0] {
      LexTransitive(a[1..], b[1..], c[1..], lt);
    }
  }

  lemma {:induction false} LexTotal<T(!new)>(a: seq<T>, b: seq<T>, lt: (T, T) -> bool)
    requires StrictTotal(lt)
    ensures a == b || LexLt(a, b, lt) || LexLt(b, a, lt)
    decreases |a|
  {
    if |a| > 0 && |b| > 0 && a[0] == b[0] {
      LexTotal(a[1..], b[1..], lt);
      if a[1..] == b[1..] {
        assert a == [a[0]] + a[1..] && b == [b[0]] + b[1..];
      }
    }
  }

  /** A proper prefix sorts first. */
  lemma {:induction false} LexPrefix<T(!new)>(a: seq<T>, b: seq<T>, lt: (T, T) -> bool)
    requires a < b
    ensures LexLt(a, b, lt)
    decreases |a|
  {
    if |a| > 0 {
      assert a[1..] < b[1..];
      LexPrefix(a[1..], b[1..], lt);
    }
  }

  lemma LexIsStrictTotal<T(!new)>(lt: (T, T) -> bool)
    requires StrictTotal(lt)
    ensures StrictTotal((a: seq<T>, b: seq<T>) => LexLt(a, b, lt))
  {
    forall a: seq<T> {
      LexIrreflexive(a, lt);
    }
    forall a: seq<T>, b: seq<T>, c: seq<T> | LexLt(a, b, lt) && LexLt(b, c, lt) {
      LexTransitive(a, b, c, lt);
    }
    forall a: seq<T>, b: seq<T> {
      LexTotal(a, b, lt);
    }
  }

  predicate CharLt(x: char, y: char) {
    x < y
  }

  /** `String`'s `Ord`: UTF-8 byte order, which is code-point order. */
  predicate StrLt(a: string, b: string) {
    LexLt(a, b, CharLt)
  }

  /** `PathBuf`'s `Ord`: components compared one by one. */
  predicate PathLt(p: Path, q: Path) {
    LexLt(p, q, StrLt)
  }

  predicate PathLe(p: Path, q: Path) {
    p == q || PathLt(p, q)
  }

  lemma StrLtIsStrictTotal()
    ensures StrictTotal(StrLt)
  {
    assert StrictTotal(CharLt);
    LexIsStrictTotal(CharLt);
    assert forall a, b :: StrLt(a, b) == ((a: string, b: string) => LexLt(a, b, CharLt))(a, b);
  }

  lemma PathLtIsStrictTotal()
    ensures StrictTotal(PathLt)
  {
    StrLtIsStrictTotal();
    LexIsStrictTotal(StrLt);
    assert forall p, q :: PathLt(p, q) == ((a: Path, b: Path) => LexLt(a, b, StrLt))(p, q);
  }

  lemma PathLtIrreflexive(p: Path)
    ensures !PathLt(p, p)
  {
    PathLtIsStrictTotal();
  }

  lemma PathLtAsymmetric(p: Path, q: Path)
    requires PathLt(p, q)
    ensures !PathLt(q, p)
  {
    PathLtIsStrictTotal();
  }

  lemma PathLtTransitive(a: Path, b: Path, c: Path)
    requires PathLt(a, b) && PathLt(b, c)
    ensures PathLt(a, c)
  {
    StrLtIsStrictTotal();
    LexTransitive(a, b, c, StrLt);
  }

  lemma PathLtTotal(a: Path, b: Path)
    ensures a == b || PathLt(a, b) || PathLt(b, a)
  {
    StrLtIsStrictTotal();
    LexTotal(a, b, StrLt);
  }

  /** A path beneath `p` other than `p` itself extends it. */
  lemma UnderStrictly(q: Path, p: Path)
    requires Under(q, p) && q != p
    ensures p < q && |p| < |q|
  {
  }

  /** A directory sorts before everything beneath it, so a sorted walk creates parents first. */
  lemma AncestorSortsFirst(p: Path, q: Path)
    requires p < q
    ensures PathLt(p, q)
  {
    LexPrefix(p, q, StrLt);
  }

  // ---------------------------------------------------------------------------
  // `Path::extension`
  // ---------------------------------------------------------------------------

  /** Index of the last '.' in `s`. */
  function LastDot(s: string): (r: Option<nat>)
    ensures r.Some? ==> r.value < |s| && s[r.value] == '.'
    ensures r.Some? ==> forall k :: r.value < k < |s| ==> s[k] != '.'
    ensures r.None? ==> forall k :: 0 <= k < |s| ==> s[k] != '.'
  {
    if |s| == 0 then None
    else if s[|s| - 1] == '.' then Some(|s| - 1)
    else LastDot(s[..|s| - 1])
  }

  /**
   `Path::extension` of a file name: the text after the last '.', unless the
   name is "..", has no '.', or its only '.' is the leading one.
   */
  function Extension(name: string): (r: Option<string>)
    ensures r.Some? ==> name != ".." && |r.value| + 1 < |name|
    ensures r.Some? ==> name[|name| - |r.value| - 1] == '.' && name[|name| - |r.value|..] == r.value
    ensures r.Some? ==> forall k :: 0 <= k < |r.value| ==> r.value[k] != '.'
    ensures r.None? ==> name == ".." || forall k :: 0 < k < |name| ==> name[k] != '.'
  {
    if name == ".." then None
    else match LastDot(name)
      case None => None
      case Some(k) =>
        if k == 0 then None
        else
          var ext := name[k + 1..];
          assert forall j :: 0 <= j < |ext| ==> ext[j] == name[k + 1 + j];
          Some(ext)
  }
}
