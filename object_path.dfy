/** The diagnostic path of `DeepEquals.Stateful` (`objectPath`, a stack of
    segments) and its four operations, DeepEquals.java:408-428. The top of the
    stack is the last element of the sequence. */
module ObjectPath {
  import opened Wrappers
  import opened Errors
  import opened Text

  type Path = seq<string>

  function IndexSuffix(idx: nat): (s: string)
  {
    "[" + NatToString(idx) + "]"
  }

  /** `pushNode(name)`. */
  function PushNode(p: Path, name: string): (r: Path)
    ensures |r| == |p| + 1 && r[..|p|] == p && r[|p|] == name
  {
    p + [name]
  }

  /** `popNode()`: Stack.pop, which fails on an empty stack. */
  function PopNode(p: Path): (r: Result<Path, Error>)
    ensures p == [] <==> r == Err(EmptyStack)
    ensures p != [] ==> r == Ok(p[..|p| - 1])
  {
    if p == [] then Err(EmptyStack) else Ok(p[..|p| - 1])
  }

  /** `pushIndexedNode(idx)`: the top segment s becomes `s[idx]`; on an empty stack
      the segment `[idx]` is pushed. */
  function PushIndexed(p: Path, idx: nat): (r: Path)
    ensures |r| == if p == [] then 1 else |p|
    ensures p != [] ==> r[..|p| - 1] == p[..|p| - 1] && r[|p| - 1] == p[|p| - 1] + IndexSuffix(idx)
    ensures p == [] ==> r == [IndexSuffix(idx)]
  {
    if p == [] then [IndexSuffix(idx)]
    else p[..|p| - 1] + [p[|p| - 1] + IndexSuffix(idx)]
  }

  /** `popIndexedNode()`: the top segment is cut back to just before its last '['.
      Stack.pop fails on an empty stack and `substring(0, -1)` fails on a top
      without '['. */
  function PopIndexed(p: Path): (r: Result<Path, Error>)
    ensures p == [] ==> r == Err(EmptyStack)
    ensures p != [] ==> (r.Ok? <==> '[' in p[|p| - 1])
    ensures r.Err? ==> r.error == EmptyStack || r.error == IndexOutOfBounds
    ensures r.Ok? ==> |r.value| == |p| && r.value[..|p| - 1] == p[..|p| - 1]
  {
    if p == [] then Err(EmptyStack)
    else
      var top := p[|p| - 1];
      var k := LastIndexOf(top, '[');
      if k < 0 then Err(IndexOutOfBounds)
      else Ok(p[..|p| - 1] + [top[..k]])
  }

  /** The stack after `popIndexedNode` failed: an empty stack stays empty, and a
      top without '[' has already been popped when `substring` fails. */
  function AfterFailedPopIndexed(p: Path): (r: Path)
    ensures p != [] ==> r == p[..|p| - 1]
    ensures p == [] ==> r == []
  {
    if p == [] then p else p[..|p| - 1]
  }

  /** What `printPath` writes: the segments joined with ".". */
  function Rendered(p: Path): string
  {
    Join(p, ".")
  }

  lemma {:induction false} LastBracketOfIndexed(s: string, idx: nat)
    ensures LastIndexOf(s + IndexSuffix(idx), '[') == |s|
  {
    var t := s + IndexSuffix(idx);
    var n := NatToString(idx);
    assert t == s + "[" + n + "]";
    var k := LastIndexOf(t, '[');
    assert t[|s|] == '[';
    forall j | |s| < j < |t| ensures t[j] != '[' {
      if j < |t| - 1 {
        assert t[j] == n[j - |s| - 1];
        assert IsDigit(n[j - |s| - 1]);
      }
    }
  }

  /** Pushing then popping an indexed segment restores a non-empty path and turns
      an empty one into `[""]`. */
  lemma {:induction false} PopIndexedAfterPushIndexed(p: Path, idx: nat)
    ensures PopIndexed(PushIndexed(p, idx)) == Ok(if p == [] then [""] else p)
  {
    var q := PushIndexed(p, idx);
    var s := if p == [] then "" else p[|p| - 1];
    var top := q[|q| - 1];
    assert top == s + IndexSuffix(idx);
    LastBracketOfIndexed(s, idx);
    assert top[..|s|] == s;
    assert PopIndexed(q) == Ok(q[..|q| - 1] + [s]);
    if p != [] {
      assert q[..|q| - 1] + [s] == p;
    } else {
      assert q[..|q| - 1] + [s] == [""];
    }
  }

  /** An indexed segment pushed onto `[""]` is the same as one pushed onto the
      empty path. */
  lemma PushIndexedOnEmptySegment(idx: nat)
    ensures PushIndexed([""], idx) == PushIndexed([], idx)
  {
    assert "" + IndexSuffix(idx) == IndexSuffix(idx);
  }
}
