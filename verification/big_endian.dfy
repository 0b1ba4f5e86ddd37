/** Big-endian byte strings (`to_be_bytes`, `from_be_bytes`). */
module BigEndian {
  import opened MachineInts

  function FromBE(s: bytes): nat {
    if s == [] then 0 else 256 * FromBE(s[..|s| - 1]) + s[|s| - 1]
  }

  function ToBE(value: nat, width: nat): (s: bytes)
    ensures |s| == width
  {
    if width == 0 then [] else ToBE(value / 256, width - 1) + [value % 256]
  }

  lemma {:induction false} FromBEBound(s: bytes)
    ensures FromBE(s) < Pow256(|s|)
  {
    if s != [] {
      FromBEBound(s[..|s| - 1]);
    }
  }

  lemma {:induction false} FromBEConcat(s: bytes, t: bytes)
    ensures FromBE(s + t) == FromBE(s) * Pow256(|t|) + FromBE(t)
  {
    if t == [] {
      assert s + t == s;
    } else {
      var front := t[..|t| - 1];
      FromBEConcat(s, front);
      assert (s + t)[..|s + t| - 1] == s + front;
      assert 256 * (FromBE(s) * Pow256(|front|)) == FromBE(s) * Pow256(|t|);
    }
  }

  lemma {:induction false} FromToBE(value: nat, width: nat)
    requires value < Pow256(width)
    ensures FromBE(ToBE(value, width)) == value
  {
    if width > 0 {
      FromToBE(value / 256, width - 1);
      assert ToBE(value, width)[..width - 1] == ToBE(value / 256, width - 1);
    }
  }

  lemma {:induction false} ToFromBE(s: bytes)
    ensures ToBE(FromBE(s), |s|) == s
  {
    if s != [] {
      var front := s[..|s| - 1];
      ToFromBE(front);
      assert FromBE(s) / 256 == FromBE(front) && FromBE(s) % 256 == s[|s| - 1];
    }
  }

  /** Equal values in equal widths are equal byte strings. */
  lemma FromBEInjective(s: bytes, t: bytes)
    requires |s| == |t| && FromBE(s) == FromBE(t)
    ensures s == t
  {
    ToFromBE(s);
    ToFromBE(t);
  }
}
