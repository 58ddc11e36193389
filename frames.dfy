/**
  What errors.go and error.go share in effect: the frame record, which
  message a stack index is paired with, how a function name is shortened, and
  the shape of the output (one record per stack index that is not dropped).
*/
module Frames {
  import opened GoStrings
  import opened GoRuntime

  /** One line of the diagnostic before it is written (the `stackFrame` struct of both files). */
  datatype Frame = Frame(file: string, line: int, funcName: string, message: string)

  /**
    The message for raw stack index `i`, given the messages collected
    newest-first: index 0 (the innermost frame) takes the last one, i.e. the
    origin's; an index past the messages takes "".
  */
  function MessageFor(messages: seq<string>, i: nat): (m: string)
    ensures i < |messages| ==> m == messages[|messages| - 1 - i]
    ensures i >= |messages| ==> m == ""
  {
    var j := |messages| - 1 - i;
    if j > -1 then messages[j] else ""
  }

  /** `j` is the index of the last `c` in `s`. */
  predicate IsLastIndex(s: string, c: char, j: int) {
    0 <= j < |s| && s[j] == c && forall k :: j < k < |s| ==> s[k] != c
  }

  /** `d` is the index of the first `c` in `s` at or after `from`. */
  predicate IsFirstIndexFrom(s: string, c: char, from: int, d: int) {
    0 <= from <= d < |s| && s[d] == c && forall k :: from <= k < d ==> s[k] != c
  }

  /**
    The function-name normalisation: a name without '/' is kept; otherwise it
    is cut at its last '/', and then, when a '.' follows that '/', cut after the
    first such '.'. So "github.com/hanjm/errors.TestErrorf.func1" becomes
    "TestErrorf.func1", and a name with no '.' after its last '/' keeps that '/'.
    The three cases are ShortFuncNameKeepsPlain, ShortFuncNameKeepsSlash and
    ShortFuncNameDropsPath.
  */
  function ShortFuncName(name: string): (r: string)
    ensures |r| <= |name|
  {
    var idx := LastIndexByte(name, '/');
    if idx == -1 then name
    else
      var tail := name[idx..];
      var dot := IndexByte(tail, '.');
      if dot == -1 then tail
      else
        TrimPrefix(tail[dot..], ".")
  }

  /** A name without '/' is kept as it is. */
  lemma ShortFuncNameKeepsPlain(name: string)
    requires '/' !in name
    ensures ShortFuncName(name) == name
  {
    assert LastIndexByte(name, '/') == -1;
  }

  /** The index of the last '/' is the one LastIndexByte finds. */
  lemma LastSlash(name: string, j: int)
    requires IsLastIndex(name, '/', j)
    ensures LastIndexByte(name, '/') == j
  {
  }

  /** With no '.' after the last '/', the name is kept from that '/' on. */
  lemma ShortFuncNameKeepsSlash(name: string, j: int)
    requires IsLastIndex(name, '/', j) && '.' !in name[j..]
    ensures ShortFuncName(name) == name[j..]
  {
    LastSlash(name, j);
    assert IndexByte(name[j..], '.') == -1;
  }

  /** The first '.' of `name[j..]` is at `d - j` when `d` is the first '.' of `name` from `j`. */
  lemma FirstDotOfTail(name: string, j: int, d: int)
    requires IsFirstIndexFrom(name, '.', j, d)
    ensures IndexByte(name[j..], '.') == d - j
  {
    var tail := name[j..];
    assert tail[d - j] == '.';
    assert forall k :: 0 <= k < d - j ==> tail[k] == name[j + k];
  }

  /**
    When a '.' follows the last '/', the name is what follows the first such
    '.', and so holds no '/'.
  */
  lemma ShortFuncNameDropsPath(name: string, j: int, d: int)
    requires IsLastIndex(name, '/', j) && IsFirstIndexFrom(name, '.', j, d)
    ensures ShortFuncName(name) == name[d + 1..]
    ensures '/' !in ShortFuncName(name)
  {
    LastSlash(name, j);
    FirstDotOfTail(name, j, d);
    assert name[j..][d - j..] == name[d..];
    var r := name[d + 1..];
    forall k | 0 <= k < |r| ensures r[k] != '/' {
      assert r[k] == name[d + 1 + k];
    }
  }

  /**
    A qualified name "path/pkg.rest", with no '/' after the path and no '.'
    in the package name, shortens to `rest`: for a closure,
    "github.com/hanjm/errors.TestErrorf.func1" gives "TestErrorf.func1".
  */
  lemma QualifiedName(path: string, pkg: string, rest: string)
    requires '/' !in pkg && '.' !in pkg && '/' !in rest
    ensures ShortFuncName(path + "/" + pkg + "." + rest) == rest
  {
    var name := path + "/" + pkg + "." + rest;
    var j := |path|;
    var d := |path| + 1 + |pkg|;
    assert forall k :: j < k < d ==> name[k] == pkg[k - j - 1];
    assert forall k :: d < k < |name| ==> name[k] == rest[k - d - 1];
    assert IsLastIndex(name, '/', j);
    assert IsFirstIndexFrom(name, '.', j, d);
    ShortFuncNameDropsPath(name, j, d);
    assert name[d + 1..] == rest;
  }

  /** The concatenation of `parts`, in order. */
  function Join(parts: seq<string>): string {
    if |parts| == 0 then "" else Join(parts[..|parts| - 1]) + parts[|parts| - 1]
  }

  /*
    Both renderers turn each raw stack index into a record, or into None when
    the frame is dropped, and write the records in stack order. What follows
    is that common shape, on the records each version formats its own way.
  */

  /** What one entry writes: its record, or nothing for a dropped frame. */
  function Written(r: Option<string>): string {
    if r.Some? then r.value else ""
  }

  /** The text written for the first `n` entries of `rs`. */
  function Emitted(rs: seq<Option<string>>, n: nat): string
    requires n <= |rs|
  {
    if n == 0 then "" else Emitted(rs, n - 1) + Written(rs[n - 1])
  }

  function Output(rs: seq<Option<string>>): string {
    Emitted(rs, |rs|)
  }

  /** The raw indices, among the first `n`, of the entries that are not dropped. */
  function Kept<T>(fs: seq<Option<T>>, n: nat): (ks: seq<nat>)
    requires n <= |fs|
    ensures forall k :: 0 <= k < |ks| ==> ks[k] < n
  {
    if n == 0 then []
    else
      var ks := Kept(fs, n - 1);
      if fs[n - 1].Some? then ks + [n - 1] else ks
  }

  /** Kept lists, in increasing order, exactly the indices whose entry is not dropped. */
  lemma {:induction false} KeptIndices<T>(fs: seq<Option<T>>, n: nat)
    requires n <= |fs|
    ensures var ks := Kept(fs, n);
            && |ks| <= n
            && (forall k, l :: 0 <= k < l < |ks| ==> ks[k] < ks[l])
            && (forall i :: 0 <= i < n ==> (i in ks <==> fs[i].Some?))
  {
    if n > 0 {
      KeptIndices(fs, n - 1);
    }
  }

  /** Two sequences that drop the same indices keep the same indices. */
  lemma {:induction false} KeptSameDrops<T, U>(fs: seq<Option<T>>, gs: seq<Option<U>>, n: nat)
    requires n <= |fs| == |gs|
    requires forall i :: 0 <= i < n ==> (fs[i].Some? <==> gs[i].Some?)
    ensures Kept(fs, n) == Kept(gs, n)
  {
    if n > 0 {
      KeptSameDrops(fs, gs, n - 1);
    }
  }

  /** The records of the entries, among the first `n`, that are not dropped, in order. */
  function Present(rs: seq<Option<string>>, n: nat): seq<string>
    requires n <= |rs|
  {
    if n == 0 then []
    else if rs[n - 1].Some? then Present(rs, n - 1) + [rs[n - 1].value]
    else Present(rs, n - 1)
  }

  /** The `k`-th present record is the record at the `k`-th kept index. */
  lemma {:induction false} PresentAtKept(rs: seq<Option<string>>, n: nat)
    requires n <= |rs|
    ensures var ks := Kept(rs, n);
            && |Present(rs, n)| == |ks|
            && forall k :: 0 <= k < |ks| ==> rs[ks[k]] == Some(Present(rs, n)[k])
  {
    if n > 0 {
      PresentAtKept(rs, n - 1);
    }
  }

  lemma JoinSnoc(parts: seq<string>, part: string)
    ensures Join(parts + [part]) == Join(parts) + part
  {
    assert (parts + [part])[..|parts|] == parts;
  }

  /** What the first `n` entries write is the concatenation of their present records. */
  lemma {:induction false} EmittedIsPresentRecords(rs: seq<Option<string>>, n: nat)
    requires n <= |rs|
    ensures Emitted(rs, n) == Join(Present(rs, n))
  {
    if n > 0 {
      EmittedIsPresentRecords(rs, n - 1);
      if rs[n - 1].Some? {
        JoinSnoc(Present(rs, n - 1), rs[n - 1].value);
      }
    }
  }

  /**
    The output is one record per entry that is not dropped, concatenated in
    stack order, so there are at most as many records as entries.
  */
  lemma OutputIsKeptRecords(rs: seq<Option<string>>)
    ensures var ks := Kept(rs, |rs|);
            var parts := Present(rs, |rs|);
            && |ks| <= |rs|
            && (forall k, l :: 0 <= k < l < |ks| ==> ks[k] < ks[l])
            && (forall i :: 0 <= i < |rs| ==> (i in ks <==> rs[i].Some?))
            && |parts| == |ks|
            && (forall k :: 0 <= k < |ks| ==> rs[ks[k]] == Some(parts[k]))
            && Output(rs) == Join(parts)
  {
    KeptIndices(rs, |rs|);
    PresentAtKept(rs, |rs|);
    EmittedIsPresentRecords(rs, |rs|);
  }
}
