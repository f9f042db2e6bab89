/** Encryption and decryption with a user-supplied key: guarded wrappers over the shift. */
module Cipher {
  import opened Shift

  /** A value, or the error the source raises as `ValueError`. */
  datatype Result<T> = Ok(value: T) | Err(message: string)

  /** The message of the error raised for a key outside 1..25. */
  const KeyRangeMessage: string := "Key harus integer antara 1 dan 25."

  /** Shifts forward by `key`; a key outside 1..25 is refused with no result. */
  function Encrypt(plaintext: string, key: int): (r: Result<string>)
    ensures r.Err? <==> key < 1 || key > 25
    ensures r.Err? ==> r.message == KeyRangeMessage
    ensures r.Ok? ==> r.value == Shifted(plaintext, key)
  {
    if !(1 <= key <= 25) then Err(KeyRangeMessage) else Ok(Shifted(plaintext, key))
  }

  /** Shifts back by `key`; a key outside 1..25 is refused with no result. */
  function Decrypt(ciphertext: string, key: int): (r: Result<string>)
    ensures r.Err? <==> key < 1 || key > 25
    ensures r.Err? ==> r.message == KeyRangeMessage
    ensures r.Ok? ==> r.value == Shifted(ciphertext, -key)
  {
    if !(1 <= key <= 25) then Err(KeyRangeMessage) else Ok(Shifted(ciphertext, -key))
  }

  /** Decrypting what was encrypted with the same valid key gives the plaintext back. */
  lemma DecryptEncrypt(plaintext: string, key: int)
    requires 1 <= key <= 25
    ensures Encrypt(plaintext, key).Ok?
    ensures Decrypt(Encrypt(plaintext, key).value, key) == Ok(plaintext)
  {
    ShiftInverse(plaintext, key);
  }

  /** Encrypting what was decrypted with the same valid key gives the ciphertext back. */
  lemma EncryptDecrypt(ciphertext: string, key: int)
    requires 1 <= key <= 25
    ensures Decrypt(ciphertext, key).Ok?
    ensures Encrypt(Decrypt(ciphertext, key).value, key) == Ok(ciphertext)
  {
    ShiftInverse(ciphertext, -key);
  }

  /** Under one valid key, two different plaintexts never give the same ciphertext. */
  lemma EncryptInjective(p1: string, p2: string, key: int)
    requires 1 <= key <= 25
    requires Encrypt(p1, key) == Encrypt(p2, key)
    ensures p1 == p2
  {
    DecryptEncrypt(p1, key);
    DecryptEncrypt(p2, key);
  }

  /** Worked examples: two encryptions, one decryption, and the rejected keys. */
  lemma CipherExamples()
    ensures Encrypt("ABC", 1) == Ok("BCD")
    ensures Decrypt("BCD", 1) == Ok("ABC")
    ensures Encrypt("xyz", 2) == Ok("zab")
    ensures Encrypt("Hi!", 3) == Ok("Kl!")
    ensures Encrypt("ABC", 0).Err? && Encrypt("ABC", 26).Err?
    ensures Encrypt("ABC", -1).Err? && Encrypt("ABC", 100).Err?
    ensures Decrypt("ABC", 0).Err? && Decrypt("ABC", 26).Err?
    ensures Decrypt("ABC", -1).Err? && Decrypt("ABC", 100).Err?
  {
    assert Shifted("ABC", 1) == "BCD";
    assert Shifted("BCD", -1) == "ABC";
    assert Shifted("xyz", 2) == "zab";
    assert Shifted("Hi!", 3) == "Kl!";
  }
}
