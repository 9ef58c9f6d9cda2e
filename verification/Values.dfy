/** Value types shared by the models. */
module Values {

  type byte = x: int | 0 <= x < 0x100

  type word = x: int | 0 <= x < 0x1_0000

  datatype Option<T> = None | Some(value: T)

  /** The number that bytes stand for, least significant byte first. */
  function Number(s: seq<byte>): nat {
    if s == [] then 0 else s[0] + 0x100 * Number(s[1..])
  }

  lemma NumberOfOne(s: seq<byte>)
    requires |s| == 1
    ensures Number(s) == s[0]
  {
    assert s[1..] == [];
  }

  lemma NumberOfTwo(s: seq<byte>)
    requires |s| == 2
    ensures Number(s) == s[0] as int + 0x100 * (s[1] as int)
  {
    assert s[1..][0] == s[1] && s[1..][1..] == [];
    assert Number(s[1..]) == s[1];
  }

  lemma NumberOfFour(s: seq<byte>)
    requires |s| == 4
    ensures Number(s) ==
      s[0] as int + 0x100 * (s[1] as int) + 0x1_0000 * (s[2] as int) + 0x100_0000 * (s[3] as int)
  {
    NumberOfTwo(s[2..]);
    assert s[1..][0] == s[1] && s[1..][1..] == s[2..];
    assert Number(s[1..]) == s[1] as int + 0x100 * Number(s[2..]);
  }
}
