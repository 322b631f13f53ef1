/** NUL-terminated strings and the loops of lib/string.c over them. A string is a position
    in a sequence of bytes that has a zero at or after that position. */
module CStrings {
  import opened Machine

  /** The distance from position at to the first zero. */
  function Length(s: seq<Byte>, at: nat): (n: nat)
    requires at <= |s|
    ensures at + n <= |s| && (at + n < |s| ==> s[at + n] == 0)
    ensures forall k :: at <= k < at + n ==> s[k] != 0
    decreases |s| - at
  {
    if at == |s| || s[at] == 0 then 0 else 1 + Length(s, at + 1)
  }

  ghost predicate Terminated(s: seq<Byte>, at: nat) {
    at <= |s| && at + Length(s, at) < |s|
  }

  /** The characters of the string at position at. */
  function Text(s: seq<Byte>, at: nat): (t: seq<Byte>)
    requires at <= |s|
    ensures 0 !in t
  {
    s[at..at + Length(s, at)]
  }

  /** A string in memory of its own. */
  function Stored(t: seq<Byte>): seq<Byte> { t + [0] }

  lemma TextIs(s: seq<Byte>, at: nat, t: seq<Byte>)
    requires at + |t| < |s| && s[at..at + |t|] == t && s[at + |t|] == 0 && 0 !in t
    ensures Terminated(s, at) && Text(s, at) == t
  {
    forall k | at <= k < at + |t|
      ensures s[k] != 0
    {
      assert s[k] == t[k - at] && t[k - at] in t;
    }
  }

  lemma StoredText(t: seq<Byte>)
    requires 0 !in t
    ensures Terminated(Stored(t), 0) && Text(Stored(t), 0) == t
  {
    TextIs(Stored(t), 0, t);
  }

  /** The character a pointer k steps into the string sees. */
  lemma CharIs(s: seq<Byte>, at: nat, k: nat)
    requires Terminated(s, at) && k <= Length(s, at)
    ensures |Text(s, at)| == Length(s, at) && at + k < |s|
    ensures s[at + k] == if k < |Text(s, at)| then Text(s, at)[k] else 0
    ensures s[at + k] == 0 <==> k == |Text(s, at)|
  {
  }

  method Strlen(s: seq<Byte>, at: nat) returns (n: nat)
    requires Terminated(s, at)
    ensures n == |Text(s, at)|
  {
    n := 0;
    while s[at + n] != 0
      invariant n <= Length(s, at)
      decreases Length(s, at) - n
    {
      n := n + 1;
    }
  }

  function First(t: seq<Byte>): Byte { if t == [] then 0 else t[0] }

  /** The difference at the first place where two texts differ, counting the terminator as 0. */
  function Compare(t1: seq<Byte>, t2: seq<Byte>): int {
    if t1 == [] || t2 == [] || t1[0] != t2[0] then First(t1) as int - First(t2) else Compare(t1[1..], t2[1..])
  }

  lemma {:induction false} CompareZero(t1: seq<Byte>, t2: seq<Byte>)
    requires 0 !in t1 && 0 !in t2
    ensures Compare(t1, t2) == 0 <==> t1 == t2
  {
    if t1 != [] && t2 != [] && t1[0] == t2[0] {
      CompareZero(t1[1..], t2[1..]);
      assert t1 == [t1[0]] + t1[1..] && t2 == [t2[0]] + t2[1..];
    } else {
      assert t1 != [] ==> t1[0] in t1;
      assert t2 != [] ==> t2[0] in t2;
    }
  }

  /** t1 comes before t2: at the first place where they differ it has ended or has the smaller character. */
  ghost predicate Before(t1: seq<Byte>, t2: seq<Byte>) {
    exists k {:trigger t1[..k]} :: 0 <= k < |t2| && k <= |t1| && t1[..k] == t2[..k] && (k == |t1| || t1[k] < t2[k])
  }

  /** The sign of the difference is the order of the texts. */
  lemma {:induction false} CompareOrders(t1: seq<Byte>, t2: seq<Byte>)
    requires 0 !in t1 && 0 !in t2
    ensures Compare(t1, t2) < 0 <==> Before(t1, t2)
  {
    if t1 != [] && t2 != [] && t1[0] == t2[0] {
      CompareOrders(t1[1..], t2[1..]);
      BeforeStep(t1, t2);
    } else {
      assert t1 != [] ==> t1[0] in t1;
      assert t2 != [] ==> t2[0] in t2;
      assert t1[..0] == t2[..0];
      assert forall k :: 0 < k <= |t1| && k <= |t2| ==> t1[..k][0] != t2[..k][0];
    }
  }

  lemma BeforeStep(t1: seq<Byte>, t2: seq<Byte>)
    requires t1 != [] && t2 != [] && t1[0] == t2[0]
    ensures Before(t1, t2) <==> Before(t1[1..], t2[1..])
  {
    if Before(t1, t2) {
      var k :| 0 <= k < |t2| && k <= |t1| && t1[..k] == t2[..k] && (k == |t1| || t1[k] < t2[k]);
      assert t1[1..][..k - 1] == t1[..k][1..] && t2[1..][..k - 1] == t2[..k][1..];
    }
    if Before(t1[1..], t2[1..]) {
      var k :| 0 <= k < |t2[1..]| && k <= |t1[1..]| && t1[1..][..k] == t2[1..][..k]
        && (k == |t1[1..]| || t1[1..][k] < t2[1..][k]);
      assert t1[..k + 1] == [t1[0]] + t1[1..][..k] && t2[..k + 1] == [t2[0]] + t2[1..][..k];
    }
  }

  /** The difference in numbers: where the texts are equal up to k and no further, it is that of what they have
      there, a text that has ended counting as 0. */
  lemma {:induction false} CompareAt(t1: seq<Byte>, t2: seq<Byte>, k: nat)
    requires k <= |t1| && k <= |t2| && t1[..k] == t2[..k]
    requires k == |t1| || k == |t2| || t1[k] != t2[k]
    ensures Compare(t1, t2) == (if k < |t1| then t1[k] else 0) as int - (if k < |t2| then t2[k] else 0)
  {
    if k > 0 {
      assert t1[0] == t1[..k][0] && t2[0] == t2[..k][0];
      assert t1[1..][..k - 1] == t1[..k][1..] && t2[1..][..k - 1] == t2[..k][1..];
      CompareAt(t1[1..], t2[1..], k - 1);
    }
  }

  lemma CompareStep(t1: seq<Byte>, t2: seq<Byte>, k: nat)
    requires k <= |t1| && k <= |t2|
    ensures if k < |t1| && k < |t2|
              && t1[k] == t2[k] then Compare(t1[k..], t2[k..]) == Compare(t1[k + 1..], t2[k + 1..])
            else Compare(t1[k..], t2[k..]) == (if k < |t1| then t1[k] else 0) as int - (if k < |t2| then t2[k] else 0)
  {
    if k < |t1| && k < |t2| {
      assert t1[k..][1..] == t1[k + 1..] && t2[k..][1..] == t2[k + 1..];
    }
  }

  method Strcmp(s1: seq<Byte>, p1: nat, s2: seq<Byte>, p2: nat) returns (c: int)
    requires Terminated(s1, p1) && Terminated(s2, p2)
    ensures c == Compare(Text(s1, p1), Text(s2, p2))
    ensures c == 0 <==> Text(s1, p1) == Text(s2, p2)
  {
    hide Compare, Text, Length;
    ghost var t1, t2 := Text(s1, p1), Text(s2, p2);
    CompareZero(t1, t2);
    var k := 0;
    CharIs(s1, p1, k);
    CharIs(s2, p2, k);
    CompareStep(t1, t2, k);
    assert t1[0..] == t1 && t2[0..] == t2;
    while s1[p1 + k] != 0 && s1[p1 + k] == s2[p2 + k]
      invariant k <= |t1| == Length(s1, p1) && k <= |t2| == Length(s2, p2) && p1 + k < |s1| && p2 + k < |s2|
      invariant Compare(t1[k..], t2[k..]) == Compare(t1, t2)
      decreases |t1| - k
    {
      CharIs(s1, p1, k);
      CharIs(s2, p2, k);
      CompareStep(t1, t2, k);
      k := k + 1;
      CharIs(s1, p1, k);
      CharIs(s2, p2, k);
    }
    CharIs(s1, p1, k);
    CharIs(s2, p2, k);
    CompareStep(t1, t2, k);
    return s1[p1 + k] as int - s2[p2 + k];
  }

  /** The first count characters, or all when the text is shorter. */
  function Prefix(t: seq<Byte>, count: nat): (r: seq<Byte>)
    ensures 0 !in t ==> 0 !in r
  {
    if |t| <= count then t else t[..count]
  }

  lemma PrefixAt(t: seq<Byte>, count: nat, k: nat)
    requires k <= |t| && k <= count
    ensures k <= |Prefix(t, count)| && (k < |Prefix(t, count)| <==> k < |t| && k < count)
    ensures k < |Prefix(t, count)| ==> Prefix(t, count)[k] == t[k]
  {
  }

  method Strncmp(s1: seq<Byte>, p1: nat, s2: seq<Byte>, p2: nat, count: nat) returns (c: int)
    requires Terminated(s1, p1) && Terminated(s2, p2)
    ensures c == Compare(Prefix(Text(s1, p1), count), Prefix(Text(s2, p2), count))
    ensures c == 0 <==> Prefix(Text(s1, p1), count) == Prefix(Text(s2, p2), count)
  {
    hide Compare, Text, Length, Prefix;
    ghost var t1, t2 := Text(s1, p1), Text(s2, p2);
    ghost var u1, u2 := Prefix(t1, count), Prefix(t2, count);
    CompareZero(u1, u2);
    var k := 0;
    assert u1[0..] == u1 && u2[0..] == u2;
    CharIs(s1, p1, 0);
    CharIs(s2, p2, 0);
    while count > k && s1[p1 + k] != 0 && s1[p1 + k] == s2[p2 + k]
      invariant k <= |t1| == Length(s1, p1) && k <= |t2| == Length(s2, p2) && k <= count
      invariant p1 + k < |s1| && p2 + k < |s2|
      invariant k <= |u1| && k <= |u2| && Compare(u1[k..], u2[k..]) == Compare(u1, u2)
      decreases count - k
    {
      CharIs(s1, p1, k);
      CharIs(s2, p2, k);
      PrefixAt(t1, count, k);
      PrefixAt(t2, count, k);
      CompareStep(u1, u2, k);
      k := k + 1;
      CharIs(s1, p1, k);
      CharIs(s2, p2, k);
    }
    CharIs(s1, p1, k);
    CharIs(s2, p2, k);
    PrefixAt(t1, count, k);
    PrefixAt(t2, count, k);
    CompareStep(u1, u2, k);
    if k == count {
      return 0;
    }
    return s1[p1 + k] as int - s2[p2 + k];
  }

  /** What strncpy writes: the text cut to count characters, padded with zeros to count. */
  function Padded(t: seq<Byte>, count: nat): (r: seq<Byte>)
    ensures |r| == count
  {
    Prefix(t, count) + seq<Byte>(count - |Prefix(t, count)|, _ => 0)
  }

  /** Character by character. */
  lemma PaddedAt(t: seq<Byte>, count: nat, k: nat)
    requires k < count
    ensures Padded(t, count)[k] == if k < |t| then t[k] else 0
  {
    hide Prefix;
    var p := Prefix(t, count);
    assert p == if |t| <= count then t else t[..count] by { PrefixCut(t, count); }
  }

  lemma PrefixCut(t: seq<Byte>, count: nat)
    ensures Prefix(t, count) == if |t| <= count then t else t[..count]
  {
  }

  method Strncpy(dest: array<Byte>, s: seq<Byte>, at: nat, count: nat)
    requires Terminated(s, at) && count <= dest.Length
    modifies dest
    ensures dest[..] == Padded(Text(s, at), count) + old(dest[count..])
  {
    hide Text, Length;
    ghost var t := Text(s, at);
    var d := 0;
    CharIs(s, at, 0);
    while d < count && s[at + d] != 0
      invariant d <= count && d <= |t| == Length(s, at) && at + d < |s|
      invariant dest[..d] == t[..d] && dest[d..] == old(dest[d..])
      decreases count - d
    {
      CharIs(s, at, d);
      dest[d] := s[at + d];
      d := d + 1;
      CharIs(s, at, d);
    }
    CharIs(s, at, d);
    ghost var copied := d;
    assert t[..copied] == Prefix(t, count);
    while d < count
      invariant copied <= d <= count
      invariant dest[..copied] == t[..copied] && dest[d..] == old(dest[d..])
      invariant forall k :: copied <= k < d ==> dest[k] == 0
    {
      dest[d] := 0;
      d := d + 1;
    }
    assert dest[..] == Padded(t, count) + dest[count..];
  }

  method Strcpy(dest: array<Byte>, s: seq<Byte>, at: nat)
    requires Terminated(s, at) && |Text(s, at)| < dest.Length
    modifies dest
    ensures dest[..] == Stored(Text(s, at)) + old(dest[|Text(s, at)| + 1..])
  {
    hide Text, Length;
    ghost var t := Text(s, at);
    var d := 0;
    CharIs(s, at, 0);
    while s[at + d] != 0
      invariant d <= |t| == Length(s, at) && at + d < |s|
      invariant dest[..d] == t[..d] && dest[d..] == old(dest[d..])
      decreases |t| - d
    {
      CharIs(s, at, d);
      dest[d] := s[at + d];
      d := d + 1;
      CharIs(s, at, d);
    }
    CharIs(s, at, d);
    dest[d] := 0;
    assert dest[..] == Stored(t) + dest[|t| + 1..];
  }

  // ---- strstr ----

  predicate OccursAt(hay: seq<Byte>, needle: seq<Byte>, k: nat) {
    k + |needle| <= |hay| && forall n :: 0 <= n < |needle| ==> hay[k + n] == needle[n]
  }

  /** The inner scan of strstr: how far the needle agrees from position k on. It stops at either terminator. */
  method MatchLength(s: seq<Byte>, at: nat, k: nat, t: seq<Byte>, from: nat) returns (n: nat)
    requires Terminated(s, at) && Terminated(t, from) && k <= Length(s, at)
    ensures from + n < |t| && (t[from + n] == 0 <==> OccursAt(Text(s, at), Text(t, from), k))
  {
    hide Text, Length;
    ghost var hay, needle := Text(s, at), Text(t, from);
    n := 0;
    CharIs(s, at, k);
    CharIs(t, from, 0);
    while s[at + k + n] != 0 && t[from + n] != 0 && s[at + k + n] == t[from + n]
      invariant k + n <= |hay| == Length(s, at) && n <= |needle| == Length(t, from)
      invariant at + k + n < |s| && from + n < |t|
      invariant forall x :: 0 <= x < n ==> hay[k + x] == needle[x]
      decreases |needle| - n
    {
      CharIs(s, at, k + n);
      CharIs(t, from, n);
      n := n + 1;
      CharIs(s, at, k + n);
      CharIs(t, from, n);
    }
    CharIs(s, at, k + n);
    CharIs(t, from, n);
  }

  /** The position of the leftmost occurrence, or -1 exactly when there is none. */
  method Strstr(s: seq<Byte>, at: nat, t: seq<Byte>, from: nat) returns (k: int)
    requires Terminated(s, at) && Terminated(t, from)
    ensures k == -1 <==> forall i :: 0 <= i <= |Text(s, at)| ==> !OccursAt(Text(s, at), Text(t, from), i)
    ensures k != -1 ==> 0 <= k <= |Text(s, at)| && OccursAt(Text(s, at), Text(t, from), k)
    ensures k != -1 ==> forall i :: 0 <= i < k ==> !OccursAt(Text(s, at), Text(t, from), i)
  {
    hide Text, Length;
    ghost var hay, needle := Text(s, at), Text(t, from);
    CharIs(t, from, 0);
    if t[from] == 0 {
      assert OccursAt(hay, needle, 0);
      return 0;
    }
    k := 0;
    CharIs(s, at, 0);
    while s[at + k] != 0
      invariant 0 <= k <= |hay| == Length(s, at) && at + k < |s|
      invariant forall i :: 0 <= i < k ==> !OccursAt(hay, needle, i)
      decreases |hay| - k
    {
      CharIs(s, at, k);
      if s[at + k] == t[from] {
        var n := MatchLength(s, at, k, t, from);
        if t[from + n] == 0 {
          return;
        }
      } else {
        assert !OccursAt(hay, needle, k) by {
          assert hay[k + 0] != needle[0];
        }
      }
      k := k + 1;
      CharIs(s, at, k);
    }
    CharIs(s, at, k);
    return -1;
  }
}
