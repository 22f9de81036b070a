/** Splitting a slash-separated path the way get_entry_name (strtok) and
    get_remaining_path (strchr) do, and what that arithmetic means for a
    well-formed absolute path. */
module Ext2Paths {
  import opened Ext2Image

  const Slash: byte := 0x2F

  /** A C string: no NUL inside. */
  type Path = p: seq<byte> | forall i :: 0 <= i < |p| ==> p[i] != 0

  /** Index of the first '/' in p, or |p| when there is none. */
  function FirstSlash(p: seq<byte>): (k: nat)
    ensures k <= |p|
    ensures forall i :: 0 <= i < k ==> p[i] != Slash
    ensures k < |p| ==> p[k] == Slash
  {
    if p == [] || p[0] == Slash then 0 else 1 + FirstSlash(p[1..])
  }

  /** The path without its leading run of '/'. */
  function DropSlashes(p: seq<byte>): (q: seq<byte>)
    ensures |q| <= |p| && q == p[|p| - |q|..]
    ensures q != [] ==> q[0] != Slash
    ensures forall i :: 0 <= i < |p| - |q| ==> p[i] == Slash
  {
    if p != [] && p[0] == Slash then DropSlashes(p[1..]) else p
  }

  /** get_entry_name: the first token of strtok(path, "/"); None stands for the
      NULL that strtok returns when the path holds no component (the source
      then passes NULL to strlen). */
  function EntryName(p: Path): (r: Option<Path>)
    ensures r.Some? ==> |r.value| > 0 && forall i :: 0 <= i < |r.value| ==> r.value[i] != Slash
    ensures r.None? <==> forall i :: 0 <= i < |p| ==> p[i] == Slash
  {
    var q := DropSlashes(p);
    if q == [] then None
    else
      var k := FirstSlash(q);
      assert q[0] == p[|p| - |q|] && q[0] != Slash;
      assert forall i :: 0 <= i < k ==> q[..k][i] == p[|p| - |q| + i];
      Some(q[..k])
  }

  /** remaining_path_len after get_entry_name: strlen(path) - (strlen(entry) + 1).
      The source's unsigned value is only compared with 0 and 1, so a wrapped
      value is a negative integer here. */
  function RemainingLen(p: Path, name: Path): int
  {
    |p| - (|name| + 1)
  }

  /** get_remaining_path: strchr(path, '/'), None for NULL. */
  function RemainingPath(p: Path): (r: Option<Path>)
    ensures r.Some? ==> r.value != [] && r.value[0] == Slash && |r.value| <= |p| && p[|p| - |r.value|..] == r.value
    ensures r.None? <==> forall i :: 0 <= i < |p| ==> p[i] != Slash
  {
    var k := FirstSlash(p);
    if k < |p| then Some(p[k..]) else None
  }

  /** An absolute path "/c1/.../cn" with non-empty components, optionally
      followed by one '/' when trailing is allowed. */
  predicate IsAbsPath(p: Path, trailingOk: bool)
  {
    |p| >= 2 && p[0] == Slash && p[1] != Slash &&
    (forall i :: 0 <= i < |p| - 1 ==> !(p[i] == Slash && p[i + 1] == Slash)) &&
    (!trailingOk ==> p[|p| - 1] != Slash)
  }

  /** The first component of an absolute path. */
  function Head(p: Path): (c: Path)
    requires |p| >= 1
  {
    p[1..][..FirstSlash(p[1..])]
  }

  /** What follows the first component, starting at its '/' (or empty). */
  function Rest(p: Path): (r: Path)
    requires |p| >= 1
    ensures |r| < |p|
  {
    p[1 + FirstSlash(p[1..])..]
  }

  lemma HeadRest(p: Path)
    requires |p| >= 1 && p[0] == Slash
    ensures p == [Slash] + Head(p) + Rest(p)
  {
    assert p == [p[0]] + p[1..];
    var k := FirstSlash(p[1..]);
    assert p[1..] == p[1..][..k] + p[1..][k..];
  }

  /** The components of an absolute path, in order. */
  function Components(p: Path, trailingOk: bool): (cs: seq<Path>)
    requires IsAbsPath(p, trailingOk)
    ensures |cs| >= 1
    decreases |p|
  {
    var r := Rest(p);
    RestShape(p, trailingOk);
    if |r| <= 1 then [Head(p)] else [Head(p)] + Components(r, trailingOk)
  }

  /** Rest of an absolute path is empty, a trailing '/', or again an absolute path. */
  lemma RestShape(p: Path, trailingOk: bool)
    requires IsAbsPath(p, trailingOk)
    ensures |Head(p)| >= 1
    ensures |Rest(p)| == 0 || Rest(p)[0] == Slash
    ensures |Rest(p)| == 1 ==> trailingOk
    ensures |Rest(p)| >= 2 ==> IsAbsPath(Rest(p), trailingOk)
  {
    var q := p[1..];
    var k := FirstSlash(q);
    assert q[0] == p[1];
    var r := Rest(p);
    assert r == p[1 + k..];
    if |r| >= 2 {
      assert r[0] == p[1 + k] == Slash;
      assert r[1] == p[2 + k];
      assert p[1 + k] == Slash;
      assert !(p[1 + k] == Slash && p[2 + k] == Slash);
      forall i | 0 <= i < |r| - 1 ensures !(r[i] == Slash && r[i + 1] == Slash) {
        assert r[i] == p[1 + k + i] && r[i + 1] == p[1 + k + i + 1];
      }
      assert r[|r| - 1] == p[|p| - 1];
    }
    if |r| == 1 {
      assert r[0] == p[|p| - 1];
    }
  }

  /** On an absolute path, get_entry_name returns the first component and
      remaining_path_len counts what follows it: 0 for the last component,
      1 for a trailing '/', and otherwise get_remaining_path(path + 1) is the
      path of the remaining components. */
  lemma {:induction false} SplitAbsPath(p: Path, trailingOk: bool)
    requires IsAbsPath(p, trailingOk)
    ensures EntryName(p) == Some(Components(p, trailingOk)[0])
    ensures RemainingLen(p, Components(p, trailingOk)[0]) == |Rest(p)|
    ensures |Rest(p)| == 0 ==> |Components(p, trailingOk)| == 1 && p[|p| - 1] != Slash
    ensures |Rest(p)| == 1 ==> |Components(p, trailingOk)| == 1 && p[|p| - 1] == Slash
    ensures |Rest(p)| >= 2 ==>
      RemainingPath(p[1..]) == Some(Rest(p)) && IsAbsPath(Rest(p), trailingOk) &&
      Components(p, trailingOk)[1..] == Components(Rest(p), trailingOk)
  {
    RestShape(p, trailingOk);
    HeadRest(p);
    EntryNameOfAbs(p, trailingOk);
    assert Components(p, trailingOk)[0] == Head(p);
    var k := FirstSlash(p[1..]);
    assert |p| == 1 + k + |Rest(p)|;
    if |Rest(p)| >= 1 {
      assert p[|p| - 1] == Rest(p)[|Rest(p)| - 1];
      RemainingPathOfAbs(p, trailingOk);
    } else {
      assert p[|p| - 1] == p[1..][k - 1];
    }
  }

  /** strtok skips the leading '/' of an absolute path and stops at the next. */
  lemma EntryNameOfAbs(p: Path, trailingOk: bool)
    requires IsAbsPath(p, trailingOk)
    ensures EntryName(p) == Some(Head(p))
  {
    var q := p[1..];
    assert q[0] != Slash;
    assert DropSlashes(q) == q;
    assert DropSlashes(p) == q;
  }

  /** strchr from just past the leading '/' finds the '/' that ends the first
      component. */
  lemma RemainingPathOfAbs(p: Path, trailingOk: bool)
    requires IsAbsPath(p, trailingOk) && |Rest(p)| >= 1
    ensures RemainingPath(p[1..]) == Some(Rest(p))
  {
    var q := p[1..];
    var k := FirstSlash(q);
    assert q[k..] == p[1 + k..];
  }
}
