/** `ceph_get_osd_crush_location`: a list of (type, name) pairs is written into the caller's buffer
    as NUL-terminated strings, or only measured. */
module CrushLocation {
  import opened Sequences

  const NUL := '\0'
  const ENOTCONN := 107
  const EINVAL := 22
  const ERANGE := 34

  type Location = seq<(string, string)>

  predicate NulFree(s: string) {
    NUL !in s
  }

  predicate AllNulFree(loc: Location) {
    forall i | 0 <= i < |loc| :: NulFree(loc[i].0) && NulFree(loc[i].1)
  }

  function PairImage(p: (string, string)): string {
    p.0 + [NUL] + p.1 + [NUL]
  }

  /** The bytes of a list of pairs. */
  function Image(loc: Location): string {
    if loc == [] then "" else Image(loc[..|loc| - 1]) + PairImage(loc[|loc| - 1])
  }

  /** The bytes before the first NUL, which is all that strcpy copies. */
  function CString(s: string): (r: string)
    ensures r <= s && NulFree(r) && (|r| < |s| ==> s[|r|] == NUL)
    ensures NulFree(s) ==> r == s
  {
    if s == "" || s[0] == NUL then "" else [s[0]] + CString(s[1..])
  }

  /** What follows the first NUL. */
  function AfterNul(s: string): (r: string)
    ensures |r| <= |s| && (s != "" ==> |r| < |s|)
  {
    if s == "" then "" else if s[0] == NUL then s[1..] else AfterNul(s[1..])
  }

  /** The first NUL, if any, separates the two. */
  lemma {:induction false} SplitAtNul(s: string)
    ensures s == if NulFree(s) then CString(s) + AfterNul(s) else CString(s) + [NUL] + AfterNul(s)
    ensures NulFree(s) ==> AfterNul(s) == ""
  {
    if s != "" {
      var t := s[1..];
      assert s == [s[0]] + t;
      if s[0] != NUL {
        SplitAtNul(t);
        assert NulFree(s) <==> NulFree(t);
        AppendAssociative([s[0]], CString(t), [NUL]);
        AppendAssociative([s[0]], CString(t) + [NUL], AfterNul(t));
      }
    }
  }

  /** Read a buffer back as pairs of NUL-terminated strings. */
  function Parse(s: string): Location
    decreases |s|
  {
    if s == "" then []
    else [(CString(s), CString(AfterNul(s)))] + Parse(AfterNul(AfterNul(s)))
  }

  lemma {:induction false} ReadString(a: string, rest: string)
    requires NulFree(a)
    ensures CString(a + [NUL] + rest) == a && AfterNul(a + [NUL] + rest) == rest
  {
    var s := a + [NUL] + rest;
    if a == "" {
      assert s[0] == NUL && s[1..] == rest;
    } else {
      assert s[0] == a[0] && s[1..] == a[1..] + [NUL] + rest;
      ReadString(a[1..], rest);
      assert a == [a[0]] + a[1..];
    }
  }

  lemma {:induction false} ImageFront(loc: Location)
    requires loc != []
    ensures Image(loc) == PairImage(loc[0]) + Image(loc[1..])
    ensures PairImage(loc[0]) == loc[0].0 + [NUL] + loc[0].1 + [NUL]
  {
    var last := |loc| - 1;
    if last == 0 {
      assert loc[..0] == [] && loc[1..] == [];
      assert "" + PairImage(loc[0]) == PairImage(loc[0]) + "";
    } else {
      var mid := loc[1..][..last - 1];
      assert loc[..last][1..] == mid;
      ImageFront(loc[..last]);
      AppendAssociative(PairImage(loc[0]), Image(mid), PairImage(loc[last]));
    }
  }

  lemma ReadPair(t: string, n: string, rest: string)
    requires NulFree(t) && NulFree(n)
    ensures Parse(PairImage((t, n)) + rest) == [(t, n)] + Parse(rest)
  {
    var tail := n + [NUL] + rest;
    PairThenRest(t, n, rest);
    ReadString(t, tail);
    ReadString(n, rest);
    assert t + [NUL] + tail != "";
  }

  lemma PairThenRest(t: string, n: string, rest: string)
    ensures PairImage((t, n)) + rest == t + [NUL] + (n + [NUL] + rest)
  {
  }

  /** A list without NULs is read back exactly. */
  lemma {:induction false} ParseImage(loc: Location)
    requires AllNulFree(loc)
    ensures Parse(Image(loc)) == loc
  {
    if loc != [] {
      ImageFront(loc);
      ReadPair(loc[0].0, loc[0].1, Image(loc[1..]));
      ParseImage(loc[1..]);
      assert loc == [loc[0]] + loc[1..];
    }
  }

  lemma {:induction false} ParseIsNulFree(s: string)
    ensures AllNulFree(Parse(s))
    decreases |s|
  {
    if s != "" {
      ParseIsNulFree(AfterNul(AfterNul(s)));
    }
  }

  /** The bytes needed, with a NUL after each string. */
  function Needed(loc: Location): nat {
    if loc == [] then 0
    else Needed(loc[..|loc| - 1]) + |loc[|loc| - 1].0| + |loc[|loc| - 1].1| + 2
  }

  lemma {:induction false} NeededIsImageSize(loc: Location)
    ensures Needed(loc) == |Image(loc)|
  {
    if loc != [] {
      NeededIsImageSize(loc[..|loc| - 1]);
    }
  }

  lemma BufferJoin(b: string, i: nat, j: nat, k: nat)
    requires i <= j <= k <= |b|
    ensures b[i..j] + b[j..k] == b[i..k]
  {
  }

  lemma PairFromParts(b: string, at: nat, t: string, n: string)
    requires at + |t| + |n| + 2 <= |b|
    requires b[at..at + |t| + 1] == t + [NUL] && b[at + |t| + 1..at + |t| + |n| + 2] == n + [NUL]
    ensures b[at..at + |t| + |n| + 2] == PairImage((t, n))
  {
    BufferJoin(b, at, at + |t| + 1, at + |t| + |n| + 2);
    AppendAssociative(t + [NUL], n, [NUL]);
  }

  /** `strcpy` to an offset; nothing else changes. */
  method StrCpy(buf: array<char>, at: nat, s: string)
    requires at + |CString(s)| + 1 <= buf.Length
    modifies buf
    ensures buf[at..at + |CString(s)| + 1] == CString(s) + [NUL]
    ensures forall i | 0 <= i < buf.Length && !(at <= i <= at + |CString(s)|) :: buf[i] == old(buf[i])
  {
    var c := CString(s);
    var k := 0;
    while k < |c|
      invariant 0 <= k <= |c|
      invariant forall i | 0 <= i < k :: buf[at + i] == c[i]
      invariant forall i | 0 <= i < buf.Length && !(at <= i < at + k) :: buf[i] == old(buf[i])
    {
      buf[at + k] := c[k];
      k := k + 1;
    }
    buf[at + k] := NUL;
  }

  /** One pair goes into the buffer at an offset. */
  method PutPair(buf: array<char>, at: nat, t: string, n: string)
    requires at + |t| + |n| + 2 <= buf.Length
    modifies buf
    ensures forall i | 0 <= i < buf.Length && !(at <= i < at + |t| + |n| + 2) :: buf[i] == old(buf[i])
    ensures NulFree(t) && NulFree(n) ==> buf[at..at + |t| + |n| + 2] == PairImage((t, n))
  {
    StrCpy(buf, at, t);
    ghost var first := buf[at..at + |CString(t)| + 1];
    StrCpy(buf, at + |t| + 1, n);
    if NulFree(t) && NulFree(n) {
      assert buf[..][at..at + |t| + 1] == first;
      assert buf[..][at + |t| + 1..at + |t| + |n| + 2] == n + [NUL];
      PairFromParts(buf[..], at, t, n);
    }
  }

  /** The call: nothing is written past `len`; with `len == 0` it is a size query; a buffer that
      is too small gives ERANGE; and on success the buffer reads back as exactly the list if and
      only if no string of it contains a NUL. */
  method GetOsdCrushLocation(mounted: bool, clientRet: int, loc: Location, path: array?<char>, len: nat)
    returns (r: int)
    requires path != null ==> len <= path.Length
    modifies path
    ensures !mounted ==> r == -ENOTCONN
    ensures mounted && path == null && len > 0 ==> r == -EINVAL
    ensures mounted && (path != null || len == 0) && clientRet != 0 ==> r == clientRet
    ensures mounted && (path != null || len == 0) && clientRet == 0 ==>
              r == if len > 0 && Needed(loc) > len then -ERANGE else Needed(loc)
    ensures path != null ==> forall i | len <= i < path.Length :: path[i] == old(path[i])
    ensures mounted && clientRet == 0 && path != null && 0 < len && Needed(loc) <= len ==>
              && (Parse(path[..Needed(loc)]) == loc <==> AllNulFree(loc))
              && (AllNulFree(loc) ==> path[..Needed(loc)] == Image(loc))
  {
    if !mounted {
      return -ENOTCONN;
    }
    if path == null && len > 0 {
      return -EINVAL;
    }
    if clientRet != 0 {
      return clientRet;
    }
    var needed, cur := 0, 0;
    var i := 0;
    while i < |loc|
      invariant 0 <= i <= |loc| && needed == Needed(loc[..i]) && cur <= len
      invariant needed <= len ==> cur == needed
      invariant path != null ==> forall j | len <= j < path.Length :: path[j] == old(path[j])
      invariant path != null && needed <= len && AllNulFree(loc) ==> path[..cur] == Image(loc[..i])
    {
      var t, n := loc[i].0, loc[i].1;
      assert loc[..i + 1][..i] == loc[..i];
      needed := needed + |t| + |n| + 2;
      if needed <= len {
        if path != null {
          ghost var before := path[..cur];
          PutPair(path, cur, t, n);
          assert path[..cur] == before;
          BufferJoin(path[..], 0, cur, cur + |t| + |n| + 2);
        }
        cur := cur + |t| + |n| + 2;
      }
      i := i + 1;
    }
    assert loc[..i] == loc;
    if len == 0 {
      return needed;
    }
    if needed > len {
      return -ERANGE;
    }
    ParseIsNulFree(path[..needed]);
    if AllNulFree(loc) {
      ParseImage(loc);
    }
    r := needed;
  }

  /** The two-call protocol: ask for the size, then fill a buffer of that size. */
  method SizeThenFill(loc: Location) returns (size: int, r: int, buf: array<char>)
    ensures r == size == buf.Length == Needed(loc)
    ensures AllNulFree(loc) ==> Parse(buf[..]) == loc
  {
    size := GetOsdCrushLocation(true, 0, loc, null, 0);
    buf := new char[size](_ => 'x');
    r := GetOsdCrushLocation(true, 0, loc, buf, size);
    assert buf[..size] == buf[..];
    NeededIsImageSize(loc);
  }
}
