/** libc block copies, byte by byte, and the value of a buffer after them. */
module Memory {
  import opened Bytes

  function Write(s: seq<Byte>, at: nat, data: seq<Byte>): (r: seq<Byte>)
    requires at + |data| <= |s|
    ensures |r| == |s|
    ensures forall i :: 0 <= i < at ==> r[i] == s[i]
    ensures forall i :: at <= i < at + |data| ==> r[i] == data[i - at]
    ensures forall i :: at + |data| <= i < |s| ==> r[i] == s[i]
  {
    s[..at] + data + s[at + |data|..]
  }

  lemma WriteBack(s: seq<Byte>, lo: nat, hi: nat)
    requires lo <= hi <= |s|
    ensures Write(s, lo, s[lo..hi]) == s
  {}

  /** `memcpy` from another object. */
  method CopyIn(a: array<Byte>, dst: nat, data: seq<Byte>)
    requires dst + |data| <= a.Length
    modifies a
    ensures a[..] == Write(old(a[..]), dst, data)
  {
    hide Write;
    for i := 0 to |data|
      invariant forall j :: 0 <= j < dst || dst + i <= j < a.Length ==> a[j] == old(a[j])
      invariant forall j :: 0 <= j < i ==> a[dst + j] == data[j]
    {
      a[dst + i] := data[i];
    }
    assert forall j :: dst <= j < dst + |data| ==> a[j] == data[j - dst];
  }

  lemma CopiedDown(before: seq<Byte>, now: seq<Byte>, dst: nat, src: nat, n: nat)
    requires dst <= src && src + n <= |before| == |now|
    requires forall j :: 0 <= j < dst || dst + n <= j < |now| ==> now[j] == before[j]
    requires forall j :: dst <= j < dst + n ==> now[j] == before[j + (src - dst)]
    ensures now == Write(before, dst, before[src..src + n])
  {
    hide Write;
  }

  /** `memcpy` inside one buffer to a lower address: ascending copies never read a written byte. */
  method CopyDown(a: array<Byte>, dst: nat, src: nat, n: nat)
    requires dst <= src && src + n <= a.Length
    modifies a
    ensures a[..] == Write(old(a[..]), dst, old(a[src..src + n]))
  {
    hide Write;
    for i := 0 to n
      invariant forall j :: 0 <= j < dst || dst + i <= j < a.Length ==> a[j] == old(a[j])
      invariant forall j :: dst <= j < dst + i ==> a[j] == old(a[j + (src - dst)])
    {
      a[dst + i] := a[src + i];
    }
    CopiedDown(old(a[..]), a[..], dst, src, n);
  }

  /** `memmove` to a higher address: copies in descending order. */
  method MoveUp(a: array<Byte>, dst: nat, src: nat, n: nat)
    requires src <= dst && dst + n <= a.Length
    modifies a
    ensures a[..] == Write(old(a[..]), dst, old(a[src..src + n]))
  {
    hide Write;
    for i := n downto 0
      invariant forall j :: 0 <= j < dst + i || dst + n <= j < a.Length ==> a[j] == old(a[j])
      invariant forall j :: dst + i <= j < dst + n ==> a[j] == old(a[j - (dst - src)])
    {
      a[dst + i] := a[src + i];
    }
  }
}
