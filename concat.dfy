/** The test's array helper: appending one or more event type codes to an
    array of codes, as used to build the list of event types a node records. */
module ArrayConcat {

  /** `Arrays.copyOf`: a new array of length `n` holding the first `n`
      elements of `a`, padded with zeros when `n` exceeds `a.Length`. */
  method CopyOf(a: array<int>, n: nat) returns (r: array<int>)
    ensures fresh(r) && r.Length == n
    ensures forall i :: 0 <= i < n ==> r[i] == if i < a.Length then a[i] else 0
  {
    r := new int[n];
    var i := 0;
    while i < n
      invariant 0 <= i <= n
      invariant forall k :: 0 <= k < i ==> r[k] == if k < a.Length then a[k] else 0
    {
      r[i] := if i < a.Length then a[i] else 0;
      i := i + 1;
    }
  }

  /** `System.arraycopy` between two different arrays: `len` elements of `src`
      from `srcPos` on overwrite `dest` from `destPos` on; the rest of `dest`
      keeps its contents. */
  method ArrayCopy(src: array<int>, srcPos: nat, dest: array<int>, destPos: nat, len: nat)
    requires src != dest
    requires srcPos + len <= src.Length && destPos + len <= dest.Length
    modifies dest
    ensures dest[..] == old(dest[..destPos]) + src[srcPos..srcPos + len] + old(dest[destPos + len..])
  {
    var i := 0;
    while i < len
      invariant 0 <= i <= len
      invariant forall k :: 0 <= k < dest.Length && !(destPos <= k < destPos + i) ==> dest[k] == old(dest[k])
      invariant forall k :: destPos <= k < destPos + i ==> dest[k] == src[srcPos + k - destPos]
    {
      dest[destPos + i] := src[srcPos + i];
      i := i + 1;
    }
    var expected := old(dest[..destPos]) + src[srcPos..srcPos + len] + old(dest[destPos + len..]);
    assert |dest[..]| == |expected|;
    assert forall k :: 0 <= k < dest.Length ==> dest[k] == expected[k];
  }

  /** `concat(arr, obj...)`: when `arr` is null or empty the result is `obj`
      itself; otherwise it is a new array holding `arr` followed by `obj`,
      and neither argument changes. */
  method Concat(arr: array?<int>, obj: array<int>) returns (newArr: array<int>)
    ensures arr == null || arr.Length == 0 ==> newArr == obj
    ensures arr != null && arr.Length > 0 ==>
      fresh(newArr) && newArr[..] == arr[..] + obj[..]
    ensures newArr[..] == (if arr == null then [] else arr[..]) + obj[..]
    ensures arr != null ==> arr[..] == old(arr[..])
    ensures obj[..] == old(obj[..])
  {
    if arr == null || arr.Length == 0 {
      newArr := obj;
    } else {
      newArr := CopyOf(arr, arr.Length + obj.Length);
      assert newArr[..arr.Length] == arr[..];
      ArrayCopy(obj, 0, newArr, arr.Length, obj.Length);
      assert obj[0..obj.Length] == obj[..];
    }
  }

  /** The event types a test node records: the file-system event types
      followed by the task-failed, task-finished and job-mapped types. */
  method IncludeEventTypes(igfsTypes: array?<int>, taskFailed: int, taskFinished: int, jobMapped: int)
    returns (r: array<int>)
    ensures r[..] == (if igfsTypes == null then [] else igfsTypes[..]) + [taskFailed, taskFinished, jobMapped]
    ensures igfsTypes != null ==> igfsTypes[..] == old(igfsTypes[..])
  {
    var extra := new int[3];
    extra[0], extra[1], extra[2] := taskFailed, taskFinished, jobMapped;
    assert extra[..] == [taskFailed, taskFinished, jobMapped];
    r := Concat(igfsTypes, extra);
  }
}
