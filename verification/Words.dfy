/** Fixed-width words and their big-endian wire form. */
module Words {
  type byte = x: int | 0 <= x < 256
  type u16 = x: int | 0 <= x < 0x1_0000
  type u32 = x: int | 0 <= x < 0x1_0000_0000
  type u64 = x: int | 0 <= x < 0x1_0000_0000_0000_0000

  function High(x: nat): nat { x / 256 }
  function Low(x: nat): byte { x % 256 }

  function Be16(x: u16): (b: seq<byte>)
    ensures |b| == 2 && Word16(b, 0) == x
  {
    JoinHalves(x);
    [High(x), Low(x)]
  }

  function Be32(x: u32): (b: seq<byte>)
    ensures |b| == 4 && Word32(b, 0) == x
  {
    var y, z := High(x), High(High(x));
    JoinHalves(x);
    JoinHalves(y);
    JoinHalves(z);
    [High(z), Low(z), Low(y), Low(x)]
  }

  lemma {:induction false} JoinHalves(x: nat)
    ensures Join(High(x), Low(x)) == x
  {
  }

  function Join(hi: nat, lo: byte): nat {
    256 * hi + lo
  }

  function Word16(b: seq<byte>, i: nat): u16
    requires i + 2 <= |b|
  {
    Join(b[i], b[i + 1])
  }

  function Word32(b: seq<byte>, i: nat): u32
    requires i + 4 <= |b|
  {
    Join(Join(Join(b[i], b[i + 1]), b[i + 2]), b[i + 3])
  }

  /** Value of a byte string, most significant byte first. */
  ghost function Number(ds: seq<byte>): nat {
    if ds == [] then 0 else 256 * Number(ds[..|ds| - 1]) + ds[|ds| - 1]
  }

  lemma {:induction false} NumberSnoc(ds: seq<byte>, b: byte)
    ensures Number(ds + [b]) == 256 * Number(ds) + b
  {
    assert (ds + [b])[..|ds|] == ds;
  }

  lemma {:induction false} NumberOf16(x: u16)
    ensures Number(Be16(x)) == x
  {
    hide Number;
    var b := Be16(x);
    NoNumber();
    NumberSnoc([], b[0]);
    NumberSnoc([b[0]], b[1]);
    assert [] + [b[0]] == [b[0]] && [b[0]] + [b[1]] == b;
    JoinHalves(x);
  }

  lemma {:induction false} NumberOf32(x: u32)
    ensures Number(Be32(x)) == x
  {
    hide Be32, Number;
    var b := Be32(x);
    NoNumber();
    NumberSnoc([], b[0]);
    NumberSnoc([b[0]], b[1]);
    NumberSnoc([b[0], b[1]], b[2]);
    NumberSnoc([b[0], b[1], b[2]], b[3]);
    assert [] + [b[0]] == [b[0]] && [b[0]] + [b[1]] == [b[0], b[1]] && [b[0], b[1]] + [b[2]] == [b[0], b[1], b[2]];
    assert [b[0], b[1], b[2]] + [b[3]] == b;
    assert Word32(b, 0) == x;
  }

  lemma {:induction false} NoNumber()
    ensures Number([]) == 0
  {
  }

  /** A word depends only on the bytes it occupies. */
  lemma {:induction false} SameWord16(a: seq<byte>, i: nat, b: seq<byte>, j: nat)
    requires i + 2 <= |a| && j + 2 <= |b| && a[i..i + 2] == b[j..j + 2]
    ensures Word16(a, i) == Word16(b, j)
  {
    var w := a[i..i + 2];
    assert w[0] == a[i] && w[1] == a[i + 1];
    assert w[0] == b[j] && w[1] == b[j + 1];
  }

  lemma {:induction false} SameWord(a: seq<byte>, i: nat, b: seq<byte>, j: nat)
    requires i + 4 <= |a| && j + 4 <= |b| && a[i..i + 4] == b[j..j + 4]
    ensures Word32(a, i) == Word32(b, j)
  {
    var w := a[i..i + 4];
    assert w[0] == a[i] && w[1] == a[i + 1] && w[2] == a[i + 2] && w[3] == a[i + 3];
    assert w[0] == b[j] && w[1] == b[j + 1] && w[2] == b[j + 2] && w[3] == b[j + 3];
  }
}
