/** The byte and string loops of kernel/src/lib/string.c that the rest of the kernel rests on. One
    byte array stands for memory; pointers are indices into it. */
module CString {
  import opened Bits

  // ----- copying -----

  // The bytes of m with those at s copied to d.
  function Copied(m: Bytes, d: nat, s: nat, len: nat): (r: Bytes)
    requires d + len <= |m| && s + len <= |m|
    ensures |r| == |m|
    ensures forall k :: 0 <= k < |m| ==> r[k] == if d <= k < d + len then m[s + (k - d)] else m[k]
  {
    m[..d] + m[s..s + len] + m[d + len..]
  }

  // memcpy; its two ranges must not overlap.
  method Memcpy(m: array<Byte>, d: nat, s: nat, len: nat)
    requires d + len <= m.Length && s + len <= m.Length
    requires d + len <= s || s + len <= d
    modifies m
    ensures m[..] == Copied(old(m[..]), d, s, len)
  {
    var i := 0;
    while i < len
      invariant 0 <= i <= len
      invariant forall k :: 0 <= k < m.Length ==> m[k] == if d <= k < d + i then old(m[s + (k - d)]) else old(m[k])
    {
      m[d + i] := m[s + i];
      i := i + 1;
    }
  }

  // memcpy between two buffers that are arrays of their own
  method Copy(dest: array<Byte>, d: nat, src: array<Byte>, s: nat, len: nat)
    requires dest != src && d + len <= dest.Length && s + len <= src.Length
    modifies dest
    ensures dest[..] == old(dest[..])[..d] + src[s..s + len] + old(dest[..])[d + len..]
  {
    var i := 0;
    while i < len
      invariant 0 <= i <= len
      invariant forall k :: 0 <= k < dest.Length ==>
        dest[k] == if d <= k < d + i then src[s + (k - d)] else old(dest[k])
    {
      dest[d + i] := src[s + i];
      i := i + 1;
    }
  }

  // memmove leaves the old source at the target under every overlap.
  method Memmove(m: array<Byte>, d: nat, s: nat, len: nat)
    requires d + len <= m.Length && s + len <= m.Length
    modifies m
    ensures m[..] == Copied(old(m[..]), d, s, len)
  {
    if d < s {
      var i := 0;
      while i < len
        invariant 0 <= i <= len
        invariant forall k :: 0 <= k < m.Length ==> m[k] == if d <= k < d + i then old(m[s + (k - d)]) else old(m[k])
      {
        m[d + i] := m[s + i];
        i := i + 1;
      }
    } else if d > s {
      var n := len;
      while n > 0
        invariant 0 <= n <= len
        invariant forall k :: 0 <= k < m.Length ==>
          m[k] == if d + n <= k < d + len then old(m[s + (k - d)]) else old(m[k])
      {
        n := n - 1;
        m[d + n] := m[s + n];
      }
    }
  }

  // ----- strings -----

  // A zero byte follows somewhere.
  ghost predicate Terminated(m: Bytes, p: nat) {
    exists n :: p <= n < |m| && m[n] == 0
  }

  // The string at p, without its zero byte.
  ghost function Str(m: Bytes, p: nat): Bytes
    requires Terminated(m, p)
    decreases |m| - p
  {
    if m[p] == 0 then [] else [m[p]] + Str(m, p + 1)
  }

  lemma {:induction false} StrIs(m: Bytes, p: nat)
    requires Terminated(m, p)
    ensures var s := Str(m, p); p + |s| < |m| && m[p + |s|] == 0 && 0 !in s && s == m[p..p + |s|]
    decreases |m| - p
  {
    if m[p] != 0 {
      StrIs(m, p + 1);
    }
  }

  lemma {:induction false} StrUnique(m: Bytes, p: nat, s: Bytes)
    requires p + |s| < |m| && m[p + |s|] == 0 && 0 !in s && s == m[p..p + |s|]
    ensures Terminated(m, p) && Str(m, p) == s
    decreases |s|
  {
    if s != [] {
      assert s[0] == m[p] && s[0] in s;
      assert s[1..] == m[p + 1..p + |s|];
      StrUnique(m, p + 1, s[1..]);
      assert s == [s[0]] + s[1..];
    }
  }

  // The first byte, with the terminator read as 0.
  function Head(s: Bytes): Byte {
    if s == [] then 0 else s[0]
  }

  // The difference at the first place where the strings differ, the end of a string counting as 0.
  function Compare(a: Bytes, b: Bytes): int {
    if a == [] || b == [] || a[0] != b[0] then Head(a) - Head(b) else Compare(a[1..], b[1..])
  }

  // Lexicographic order on bytes.
  ghost predicate Less(a: Bytes, b: Bytes) {
    exists k: nat :: IsFirstDifference(a, b, k) && Head(a[k..]) < Head(b[k..])
  }

  ghost predicate IsFirstDifference(a: Bytes, b: Bytes, k: nat) {
    k <= |a| && k <= |b| && a[..k] == b[..k] && Head(a[k..]) != Head(b[k..])
  }

  // strcmp is 0 exactly on equal strings, and its sign is the lexicographic order.
  lemma {:induction false} CompareIsOrder(a: Bytes, b: Bytes)
    requires 0 !in a && 0 !in b
    ensures Compare(a, b) == 0 <==> a == b
    ensures Compare(a, b) < 0 <==> Less(a, b)
    ensures Compare(a, b) > 0 <==> Less(b, a)
    decreases |a|
  {
    if a == [] || b == [] || a[0] != b[0] {
      assert a != [] ==> a[0] in a;
      assert b != [] ==> b[0] in b;
      assert a[..0] == b[..0] && a[0..] == a && b[0..] == b;
      if a != b {
        assert IsFirstDifference(a, b, 0) && IsFirstDifference(b, a, 0);
        OneDifference(a, b, 0);
        OneDifference(b, a, 0);
      } else {
        NoDifference(a);
      }
    } else {
      var x, y := a[1..], b[1..];
      CompareIsOrder(x, y);
      assert a == [a[0]] + x && b == [a[0]] + y;
      LessTail(a[0], x, y);
      LessTail(a[0], y, x);
    }
  }

  lemma OneDifference(a: Bytes, b: Bytes, k: nat)
    requires IsFirstDifference(a, b, k)
    ensures Less(a, b) <==> Head(a[k..]) < Head(b[k..])
  {
    forall j: nat | IsFirstDifference(a, b, j)
      ensures j == k
    {
      EarlierAgrees(a, b, j, k);
      EarlierAgrees(a, b, k, j);
    }
  }

  lemma EarlierAgrees(a: Bytes, b: Bytes, j: nat, k: nat)
    requires IsFirstDifference(a, b, k)
    ensures j < k ==> !IsFirstDifference(a, b, j)
  {
    if j < k {
      assert a[j] == a[..k][j] && b[j] == b[..k][j];
    }
  }

  lemma NoDifference(a: Bytes)
    ensures !Less(a, a)
  {
  }

  lemma LessTail(c: Byte, x: Bytes, y: Bytes)
    ensures Less([c] + x, [c] + y) <==> Less(x, y)
  {
    var a, b := [c] + x, [c] + y;
    if Less(x, y) {
      var k: nat :| IsFirstDifference(x, y, k) && Head(x[k..]) < Head(y[k..]);
      assert a[k + 1..] == x[k..] && b[k + 1..] == y[k..];
      assert a[..k + 1] == [c] + x[..k] && b[..k + 1] == [c] + y[..k];
      assert IsFirstDifference(a, b, k + 1);
    }
    if Less(a, b) {
      var k: nat :| IsFirstDifference(a, b, k) && Head(a[k..]) < Head(b[k..]);
      assert k > 0;
      assert a[k..] == x[k - 1..] && b[k..] == y[k - 1..];
      assert x[..k - 1] == a[..k][1..] && y[..k - 1] == b[..k][1..];
      assert IsFirstDifference(x, y, k - 1);
    }
  }

  method Strcmp(m: array<Byte>, s1: nat, s2: nat) returns (r: int)
    requires Terminated(m[..], s1) && Terminated(m[..], s2)
    ensures r == Compare(Str(m[..], s1), Str(m[..], s2))
    ensures r == 0 <==> Str(m[..], s1) == Str(m[..], s2)
  {
    hide Terminated, Str, Compare, Less;
    ghost var ms := m[..];
    StrIs(ms, s1);
    StrIs(ms, s2);
    CompareIsOrder(Str(ms, s1), Str(ms, s2));
    InMemory(ms, s1);
    InMemory(ms, s2);
    var p: nat, q: nat := s1, s2;
    while m[p] != 0 && m[p] == m[q]
      invariant p < m.Length && q < m.Length && Terminated(ms, p) && Terminated(ms, q)
      invariant Compare(Str(ms, s1), Str(ms, s2)) == Compare(Str(ms, p), Str(ms, q))
      decreases m.Length - p
    {
      NextChar(ms, p, q);
      p, q := p + 1, q + 1;
    }
    LastChar(ms, p, q);
    r := (m[p] as int) - (m[q] as int);
  }

  lemma InMemory(m: Bytes, p: nat)
    requires Terminated(m, p)
    ensures p < |m|
  {
  }

  lemma NextChar(m: Bytes, p: nat, q: nat)
    requires Terminated(m, p) && Terminated(m, q) && m[p] != 0 && m[p] == m[q]
    ensures Terminated(m, p + 1) && Terminated(m, q + 1) && p + 1 < |m| && q + 1 < |m|
    ensures Compare(Str(m, p), Str(m, q)) == Compare(Str(m, p + 1), Str(m, q + 1))
  {
    assert Str(m, p)[1..] == Str(m, p + 1) && Str(m, q)[1..] == Str(m, q + 1);
  }

  lemma LastChar(m: Bytes, p: nat, q: nat)
    requires Terminated(m, p) && Terminated(m, q) && (m[p] == 0 || m[p] != m[q])
    ensures Compare(Str(m, p), Str(m, q)) == (m[p] as int) - (m[q] as int)
  {
  }

  // What strncpy writes: n bytes when the source has n or more, else the source and zeroes up to
  // and including byte n, one byte more than section 7.24.2.4 of ISO C11 allows.
  function Written(s: Bytes, n: nat): (r: Bytes)
    ensures |r| == if |s| < n then n + 1 else n
    ensures forall k :: 0 <= k < |r| ==> r[k] == if k < |s| then s[k] else 0
  {
    if |s| < n then s + seq(n + 1 - |s|, _ => 0) else s[..n]
  }

  // strncpy writes n bytes exactly when the source is no shorter than n.
  lemma StrncpyFootprint(s: Bytes, n: nat)
    ensures |Written(s, n)| == n <==> |s| >= n
    ensures |Written(s, n)| <= n + 1
  {
  }

  function Overwrite(m: Bytes, at: nat, bytes: Bytes): (r: Bytes)
    requires at + |bytes| <= |m|
    ensures |r| == |m|
    ensures forall k :: 0 <= k < |m| ==> r[k] == if at <= k < at + |bytes| then bytes[k - at] else m[k]
  {
    m[..at] + bytes + m[at + |bytes|..]
  }

  method Strncpy(m: array<Byte>, dest: nat, src: nat, n: nat)
    requires Terminated(m[..], src)
    requires dest + |Written(Str(m[..], src), n)| <= m.Length
    requires src + |Str(m[..], src)| < dest || dest + n < src
    modifies m
    ensures m[..] == Overwrite(old(m[..]), dest, Written(old(Str(m[..], src)), n))
  {
    StrIs(m[..], src);
    hide Terminated, Written, Str;
    ghost var s := Str(m[..], src);
    var left := CopyChars(m, dest, src, n, s);
    var d := dest + (n - left);
    if left > 0 {
      m[d] := 0;
      PadZeros(m, d + 1, left);
    }
  }

  // The first loop of strncpy: copies up to n bytes of the string s, returns what is left of n.
  method CopyChars(m: array<Byte>, dest: nat, src: nat, n: nat, ghost s: Bytes) returns (left: nat)
    requires src + |s| < m.Length && s == m[src..src + |s|] && m[src + |s|] == 0 && 0 !in s
    requires dest + n <= m.Length && (src + |s| < dest || dest + n < src)
    modifies m
    ensures left == if |s| < n then n - |s| else 0
    ensures forall k :: 0 <= k < m.Length ==> m[k] == if dest <= k < dest + (n - left) then s[k - dest] else old(m[k])
  {
    var i := 0;
    assert forall k :: 0 <= k < |s| ==> s[k] in s && m[src + k] == s[k];
    while i < n && m[src + i] != 0
      invariant 0 <= i <= n && i <= |s|
      invariant forall k :: 0 <= k < m.Length ==> m[k] == if dest <= k < dest + i then s[k - dest] else old(m[k])
    {
      m[dest + i] := m[src + i];
      i := i + 1;
    }
    left := n - i;
  }

  // The second loop of strncpy.
  method PadZeros(m: array<Byte>, d: nat, count: nat)
    requires d + count <= m.Length
    modifies m
    ensures forall k :: 0 <= k < m.Length ==> m[k] == if d <= k < d + count then 0 else old(m[k])
  {
    var i := 0;
    while i < count
      invariant 0 <= i <= count
      invariant forall k :: 0 <= k < m.Length ==> m[k] == if d <= k < d + i then 0 else old(m[k])
    {
      m[d + i] := 0;
      i := i + 1;
    }
  }

  // Copying a name into a zeroed buffer of n + 1 bytes stores its first n bytes as a string.
  lemma NameStored(m: Bytes, dest: nat, s: Bytes, n: nat)
    requires dest + n + 1 <= |m| && m[dest + n] == 0 && 0 !in s
    ensures var r := Overwrite(m, dest, Written(s, n));
            Terminated(r, dest) && Str(r, dest) == if |s| < n then s else s[..n]
  {
    var r := Overwrite(m, dest, Written(s, n));
    StrUnique(r, dest, if |s| < n then s else s[..n]);
  }
}
