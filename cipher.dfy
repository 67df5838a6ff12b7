/**
  The password transform of the codec: an additive Caesar shift, modulo 256,
  over the payload's bytes. The shift is the sum of the password's code
  points modulo 256; an empty password leaves the bytes alone.
 */
module Cipher {
  import opened Bits

  /** The sum of the code points of a password: `sum(ord(c) for c in password)`. */
  function CodeSum(password: string): nat
  {
    if password == [] then 0 else CodeSum(password[..|password| - 1]) + password[|password| - 1] as int
  }

  /** The shift a non-empty password selects. */
  function ShiftAmount(password: string): Byte
  {
    CodeSum(password) % 256
  }

  /**
    The amount by which bytes actually move: the transform is skipped
    altogether for an empty password (`if password:`), which is the same as
    a shift of zero.
   */
  function EffectiveShift(password: string): Byte
  {
    if password == [] then 0 else ShiftAmount(password)
  }

  /** Scramble payload bytes before embedding: each byte becomes `(b + shift) % 256`. */
  function Shift(bytes: seq<Byte>, password: string): (r: seq<Byte>)
    ensures |r| == |bytes|
  {
    if password == [] then bytes
    else seq(|bytes|, i requires 0 <= i < |bytes| => (bytes[i] + ShiftAmount(password)) % 256)
  }

  /** Unscramble extracted bytes: each byte becomes `(b - shift) % 256`, a floored modulus. */
  function Unshift(bytes: seq<Byte>, password: string): (r: seq<Byte>)
    ensures |r| == |bytes|
  {
    if password == [] then bytes
    else seq(|bytes|, i requires 0 <= i < |bytes| => (bytes[i] - ShiftAmount(password)) % 256)
  }

  /** Byte `i` of the scrambled payload is byte `i` moved up by the effective shift. */
  lemma ShiftAt(bytes: seq<Byte>, password: string, i: nat)
    requires i < |bytes|
    ensures Shift(bytes, password)[i] == (bytes[i] + EffectiveShift(password)) % 256
  {
  }

  /** Byte `i` of the unscrambled payload is byte `i` moved down by the effective shift. */
  lemma UnshiftAt(bytes: seq<Byte>, password: string, i: nat)
    requires i < |bytes|
    ensures Unshift(bytes, password)[i] == (bytes[i] - EffectiveShift(password)) % 256
  {
  }

  /** Moving a byte up by `s` and then down by `t` moves it by `s - t`, modulo 256. */
  lemma ShiftThenUnshiftByte(b: Byte, s: Byte, t: Byte)
    ensures ((b + s) % 256 - t) % 256 == (b + s - t) % 256
  {
    var k := (b + s) / 256;
    assert (b + s) % 256 == b + s - 256 * k;
    assert (b + s - 256 * k - t) % 256 == (b + s - t) % 256;
  }

  /**
    Unscrambling with one password what was scrambled with another moves
    every byte by the difference of their effective shifts.
   */
  lemma CrossPasswordOffset(bytes: seq<Byte>, p1: string, p2: string)
    ensures |Unshift(Shift(bytes, p1), p2)| == |bytes|
    ensures forall i :: 0 <= i < |bytes| ==>
      Unshift(Shift(bytes, p1), p2)[i] == (bytes[i] + EffectiveShift(p1) - EffectiveShift(p2)) % 256
  {
    var s: int, t: int := EffectiveShift(p1), EffectiveShift(p2);
    forall i | 0 <= i < |bytes|
      ensures Unshift(Shift(bytes, p1), p2)[i] == (bytes[i] + s - t) % 256
    {
      ShiftAt(bytes, p1, i);
      UnshiftAt(Shift(bytes, p1), p2, i);
      ShiftThenUnshiftByte(bytes[i], s, t);
    }
  }

  /** The same password undoes its own scrambling, whatever the bytes. */
  lemma UnshiftShift(bytes: seq<Byte>, password: string)
    ensures Unshift(Shift(bytes, password), password) == bytes
  {
    CrossPasswordOffset(bytes, password, password);
  }

  /** Scrambling also undoes unscrambling: the two are mutually inverse. */
  lemma ShiftUnshift(bytes: seq<Byte>, password: string)
    ensures Shift(Unshift(bytes, password), password) == bytes
  {
    var s: int := EffectiveShift(password);
    forall i | 0 <= i < |bytes|
      ensures Shift(Unshift(bytes, password), password)[i] == bytes[i]
    {
      UnshiftAt(bytes, password, i);
      ShiftAt(Unshift(bytes, password), password, i);
      var k := (bytes[i] - s) / 256;
      assert (bytes[i] - s) % 256 == bytes[i] - s - 256 * k;
      assert (bytes[i] - s - 256 * k + s) % 256 == bytes[i] % 256;
    }
  }

  /** An empty password leaves the payload unchanged in both directions. */
  lemma EmptyPasswordIsIdentity(bytes: seq<Byte>)
    ensures Shift(bytes, "") == bytes && Unshift(bytes, "") == bytes
  {
  }

  /**
    With a password whose effective shift differs, unscrambling never gives
    back a non-empty payload: its first byte is off by the non-zero difference.
   */
  lemma WrongPasswordChangesBytes(bytes: seq<Byte>, p1: string, p2: string)
    requires EffectiveShift(p1) != EffectiveShift(p2)
    requires bytes != []
    ensures Unshift(Shift(bytes, p1), p2) != bytes
  {
    CrossPasswordOffset(bytes, p1, p2);
    var s: int, t: int := EffectiveShift(p1), EffectiveShift(p2);
    var b: int := bytes[0];
    assert Unshift(Shift(bytes, p1), p2)[0] == (b + s - t) % 256;
    assert -256 < s - t < 256 && s - t != 0;
  }

  /** The code points of "hunter2" add up to 712. */
  lemma CodeSumHunter2()
    ensures CodeSum("hunter2") == 712
  {
    assert CodeSum("h") == 104;
    assert "hu"[..1] == "h";
    assert CodeSum("hu") == 221;
    assert "hun"[..2] == "hu";
    assert CodeSum("hun") == 331;
    assert "hunt"[..3] == "hun";
    assert CodeSum("hunt") == 447;
    assert "hunte"[..4] == "hunt";
    assert CodeSum("hunte") == 548;
    assert "hunter"[..5] == "hunte";
    assert CodeSum("hunter") == 662;
    assert "hunter2"[..6] == "hunter";
  }

  /** The code points of "wrongpassword123" add up to 1590. */
  lemma CodeSumWrongPassword123()
    ensures CodeSum("wrongpassword123") == 1590
  {
    assert CodeSum("w") == 119;
    assert "wr"[..1] == "w";
    assert CodeSum("wr") == 233;
    assert "wro"[..2] == "wr";
    assert CodeSum("wro") == 344;
    assert "wron"[..3] == "wro";
    assert CodeSum("wron") == 454;
    assert "wrong"[..4] == "wron";
    assert CodeSum("wrong") == 557;
    assert "wrongp"[..5] == "wrong";
    assert CodeSum("wrongp") == 669;
    assert "wrongpa"[..6] == "wrongp";
    assert CodeSum("wrongpa") == 766;
    assert "wrongpas"[..7] == "wrongpa";
    assert CodeSum("wrongpas") == 881;
    assert "wrongpass"[..8] == "wrongpas";
    assert CodeSum("wrongpass") == 996;
    assert "wrongpassw"[..9] == "wrongpass";
    assert CodeSum("wrongpassw") == 1115;
    assert "wrongpasswo"[..10] == "wrongpassw";
    assert CodeSum("wrongpasswo") == 1226;
    assert "wrongpasswor"[..11] == "wrongpasswo";
    assert CodeSum("wrongpasswor") == 1340;
    assert "wrongpassword"[..12] == "wrongpasswor";
    assert CodeSum("wrongpassword") == 1440;
    assert "wrongpassword1"[..13] == "wrongpassword";
    assert CodeSum("wrongpassword1") == 1489;
    assert "wrongpassword12"[..14] == "wrongpassword1";
    assert CodeSum("wrongpassword12") == 1539;
    assert "wrongpassword123"[..15] == "wrongpassword12";
  }

  /** The shifts of the passwords used by the encryption test: "hunter2", "wrongpassword123" and none. */
  lemma TestPasswordShifts()
    ensures EffectiveShift("hunter2") == 200
    ensures EffectiveShift("wrongpassword123") == 54
    ensures EffectiveShift("") == 0
  {
    CodeSumHunter2();
    CodeSumWrongPassword123();
  }
}
