/** Storing bytes into a buffer, as a function on its contents. */
module Buffers {
  import opened MachineInts

  /** `s` with `data` stored from `start` on; as it was if there is no room. */
  function Overwrite(s: bytes, start: nat, data: bytes): (r: bytes)
    ensures |r| == |s|
  {
    if start + |data| <= |s| then s[..start] + data + s[start + |data|..] else s
  }

  lemma OverwriteOne(s: bytes, i: nat, a: u8)
    requires i < |s|
    ensures s[i := a] == Overwrite(s, i, [a])
  {
  }

  /** Overwriting byte by byte. */
  lemma OverwriteNext(s: bytes, start: nat, data: bytes, a: u8)
    requires start + |data| < |s|
    ensures Overwrite(s, start, data)[start + |data| := a] == Overwrite(s, start, data + [a])
  {
  }

  lemma OverwriteTwo(s: bytes, i: nat, a: u8, b: u8)
    requires i + 1 < |s|
    ensures s[i := a][i + 1 := b] == Overwrite(s, i, [a, b])
  {
    OverwriteOne(s, i, a);
    OverwriteNext(s, i, [a], b);
    assert [a] + [b] == [a, b];
  }

  lemma OverwriteFour(s: bytes, i: nat, a: u8, b: u8, c: u8, d: u8)
    requires i + 3 < |s|
    ensures s[i := a][i + 1 := b][i + 2 := c][i + 3 := d] == Overwrite(s, i, [a, b, c, d])
  {
    OverwriteTwo(s, i, a, b);
    OverwriteNext(s, i, [a, b], c);
    OverwriteNext(s, i, [a, b] + [c], d);
    assert [a, b] + [c] + [d] == [a, b, c, d];
  }

  lemma OverwriteNothing(s: bytes, start: nat)
    ensures Overwrite(s, start, []) == s
  {
  }

  /** Overwriting with two neighbouring pieces in turn overwrites with both. */
  lemma OverwriteTwice(s: bytes, start: nat, data: bytes, i: nat, j: nat)
    requires i <= j <= |data| && start + j <= |s|
    ensures Overwrite(Overwrite(s, start, data[..i]), start + i, data[i..j]) == Overwrite(s, start, data[..j])
  {
    var once := Overwrite(s, start, data[..i]);
    assert once[start + j..] == s[start + j..];
    assert once[..start + i] == s[..start] + data[..i];
    assert data[..i] + data[i..j] == data[..j];
  }

  lemma OverwriteFront(a: bytes, b: bytes, start: nat, data: bytes)
    requires start + |data| <= |a|
    ensures Overwrite(a + b, start, data) == Overwrite(a, start, data) + b
  {
  }

  lemma OverwriteBack(a: bytes, b: bytes, start: nat, data: bytes)
    requires start + |data| <= |b|
    ensures Overwrite(a + b, |a| + start, data) == a + Overwrite(b, start, data)
  {
  }

  /** Storing a second piece right after the first stores both. */
  lemma OverwriteAppend(s: bytes, start: nat, a: bytes, b: bytes)
    requires start + |a| + |b| <= |s|
    ensures Overwrite(Overwrite(s, start, a), start + |a|, b) == Overwrite(s, start, a + b)
  {
    OverwriteTwice(s, start, a + b, |a|, |a + b|);
    assert (a + b)[..|a|] == a && (a + b)[|a|..|a + b|] == b && (a + b)[..|a + b|] == a + b;
  }
}
