/**
  C strings, and names kept in fixed-size fields padded with zero bytes.
 */
module CStrings {
  import opened Bytes

  /** A C string without its terminator. */
  type CString = s: seq<byte> | 0 !in s witness []

  datatype Option<+T> = None | Some(value: T)

  /** The characters of a fixed-size name field up to its first zero byte. */
  function CName(a: seq<byte>): (s: CString)
    ensures |s| <= |a|
  {
    if a == [] || a[0] == 0 then [] else [a[0]] + CName(a[1..])
  }

  lemma {:induction false} CNamePadded(name: CString, n: nat)
    requires |name| <= n
    ensures CName(Padded(name, n)) == name
  {
    if name != [] {
      assert Padded(name, n)[1..] == Padded(name[1..], n - 1);
      CNamePadded(name[1..], n - 1);
    }
  }

  lemma {:induction false} CNameSplit(a: seq<byte>, i: nat)
    requires i <= |a| && 0 !in a[..i]
    ensures CName(a) == a[..i] + CName(a[i..])
  {
    if i > 0 {
      assert a[0] == a[..i][0];
      assert a[1..][..i - 1] == a[..i][1..];
      CNameSplit(a[1..], i - 1);
      assert a[1..][i - 1..] == a[i..];
      assert a[..i] == [a[0]] + a[1..][..i - 1];
    } else {
      assert a[0..] == a && a[..0] == [];
    }
  }
}
