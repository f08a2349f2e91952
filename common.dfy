/** Values shared by the scanner, the pair builder and the replacer:
    failure-carrying wrappers, bytes, file paths, and the two string
    operations of Python's standard library the core relies on
    (`str.lower` and `PurePath.suffix`), plus Python's prefix slice. */
module Common {

  datatype Option<+T> = None | Some(value: T)

  /** Success or the exception the source would raise. */
  datatype Result<+T, +E> = Success(value: T) | Failure(error: E)

  newtype byte = x: int | 0 <= x < 256

  /** A file path: the directory it lives in and its final component. */
  datatype Path = Path(parent: string, name: string)

  function Min(a: int, b: int): int { if a <= b then a else b }

  function Max(a: int, b: int): int { if a >= b then a else b }

  function LowerChar(c: char): char {
    if 'A' <= c <= 'Z' then (c as int + 32) as char else c
  }

  /** `str.lower`, restricted to ASCII letters. */
  function Lower(s: string): (r: string)
    ensures |r| == |s|
  {
    seq(|s|, i requires 0 <= i < |s| => LowerChar(s[i]))
  }

  /** `str.rfind(c)`: the last index of `c` in `s`, or -1. */
  function LastIndexOf(s: string, c: char): (i: int)
    ensures -1 <= i < |s|
    ensures 0 <= i ==> s[i] == c
    ensures forall j :: i < j < |s| ==> s[j] != c
  {
    if s == [] then -1
    else if s[|s| - 1] == c then |s| - 1
    else LastIndexOf(s[..|s| - 1], c)
  }

  /** `PurePath.suffix`: the final component's text from its last dot,
      or "" when there is no dot, the only dot leads the name, or the
      name ends with the dot. */
  function Suffix(name: string): (sfx: string)
    ensures sfx == "" || (|sfx| >= 2 && sfx[0] == '.' && '.' !in sfx[1..])
    ensures sfx != "" ==> |sfx| < |name| && name[|name| - |sfx|..] == sfx
  {
    var i := LastIndexOf(name, '.');
    if 0 < i < |name| - 1 then
      assert forall j :: 1 <= j < |name[i..]| ==> name[i..][j] == name[i + j];
      name[i..]
    else ""
  }

  /** Python's `s[:k]`: a negative `k` counts from the end. */
  function Take<T>(s: seq<T>, k: int): (r: seq<T>)
    ensures r <= s
    ensures 0 <= k ==> |r| == Min(k, |s|)
    ensures k < 0 ==> |r| == Max(0, |s| + k)
  {
    if 0 <= k then s[..Min(k, |s|)] else s[..Max(0, |s| + k)]
  }
}
