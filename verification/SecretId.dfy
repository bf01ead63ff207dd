/** The identifier rule shared by clients, protocol and storage. */
module SecretId {
  import opened Bytes

  const MAX_ID_SIZE: nat := 63

  predicate IsLower(b: byte) { 'a' as int <= b <= 'z' as int }

  predicate IsIdByte(b: byte) { IsLower(b) || '0' as int <= b <= '9' as int || b == '_' as int }

  predicate IsValid(id: bytes) {
    0 < |id| <= MAX_ID_SIZE && IsLower(id[0]) && forall i | 0 <= i < |id| :: IsIdByte(id[i])
  }

  const LETTERS: string := "abcdefghijklmnopqrstuvwxyz"
  const OTHERS: string := "0123456789_"

  /** `b` is the code of the `k`-th character of `s`. */
  predicate IsCode(b: byte, s: string, k: nat) { k < |s| && s[k] as int == b }

  lemma LettersAre(b: byte)
    ensures IsLower(b) <==> exists k :: IsCode(b, LETTERS, k)
  {
    if IsLower(b) { assert IsCode(b, LETTERS, b - 'a' as int); }
  }

  lemma OthersAre(b: byte)
    ensures IsIdByte(b) && !IsLower(b) <==> exists k :: IsCode(b, OTHERS, k)
  {
    if '0' as int <= b <= '9' as int { assert IsCode(b, OTHERS, b - '0' as int); }
    if b == '_' as int { assert IsCode(b, OTHERS, 10); }
  }

  /** The rule of the documentation: one to 63 characters, a letter first, then letters, digits and underscores. */
  lemma ValidExactly(id: bytes)
    ensures IsValid(id)
       <==> 1 <= |id| <= 63 && (exists k :: IsCode(id[0], LETTERS, k))
            && forall b | b in id :: (exists k :: IsCode(b, LETTERS, k)) || (exists k :: IsCode(b, OTHERS, k))
  {
    hide IsCode;
    if id != [] { LettersAre(id[0]); }
    forall b | b in id
      ensures IsIdByte(b) <==> (exists k :: IsCode(b, LETTERS, k)) || (exists k :: IsCode(b, OTHERS, k))
    {
      LettersAre(b);
      OthersAre(b);
    }
    assert forall i | 0 <= i < |id| :: id[i] in id;
  }
}
