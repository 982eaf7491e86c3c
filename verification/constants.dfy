/** Global constants: the default mixing mask and the two 256-entry
    nucleotide lookup tables, each table written as a function of the byte
    that indexes it (every `u8` is a valid index). */
module Constants {
  import opened Bits

  /** `(1 << 20) - 1`. */
  const DEFAULT_PRIME_NUMBER: u64 := 0x10_0000 - 1

  /** The byte of an ASCII character. */
  function Ascii(c: char): u8
    requires c as int < 0x80
  {
    c as int
  }

  /** `COMPL_BASES[b]`: filled with `N`, then A/a -> T, C/c -> G, G/g -> C,
      T/t -> A and U/u -> A. */
  function ComplBases(b: u8): (r: u8)
    ensures r in {Ascii('A'), Ascii('C'), Ascii('G'), Ascii('T'), Ascii('N')}
  {
    if b == Ascii('A') || b == Ascii('a') then Ascii('T')
    else if b == Ascii('C') || b == Ascii('c') then Ascii('G')
    else if b == Ascii('G') || b == Ascii('g') then Ascii('C')
    else if b == Ascii('T') || b == Ascii('t') then Ascii('A')
    else if b == Ascii('U') || b == Ascii('u') then Ascii('A')
    else Ascii('N')
  }

  /** `SEQ_NT4_TABLE[b]`: filled with 4, then A/a -> 0, C/c -> 1, G/g -> 2
      and T/t/U/u -> 3. */
  function SeqNt4Table(b: u8): (r: u8)
    ensures r <= 4
  {
    if b == Ascii('A') || b == Ascii('a') then 0
    else if b == Ascii('C') || b == Ascii('c') then 1
    else if b == Ascii('G') || b == Ascii('g') then 2
    else if b == Ascii('T') || b == Ascii('t') || b == Ascii('U') || b == Ascii('u') then 3
    else 4
  }

  predicate IsNucleotide(b: u8)
  {
    b in {Ascii('A'), Ascii('C'), Ascii('G'), Ascii('T'), Ascii('U'),
          Ascii('a'), Ascii('c'), Ascii('g'), Ascii('t'), Ascii('u')}
  }

  lemma DefaultPrimeIsMask()
    ensures IsLowMask(DEFAULT_PRIME_NUMBER, 20)
    ensures DEFAULT_PRIME_NUMBER == 1048575
  {
    Pow2Values();
  }

  lemma ComplBasesEntries()
    ensures ComplBases(Ascii('A')) == ComplBases(Ascii('a')) == Ascii('T')
    ensures ComplBases(Ascii('C')) == ComplBases(Ascii('c')) == Ascii('G')
    ensures ComplBases(Ascii('G')) == ComplBases(Ascii('g')) == Ascii('C')
    ensures ComplBases(Ascii('T')) == ComplBases(Ascii('t')) == Ascii('A')
    ensures ComplBases(Ascii('U')) == ComplBases(Ascii('u')) == Ascii('A')
  {
  }

  lemma ComplBasesDefault(b: u8)
    ensures !IsNucleotide(b) <==> ComplBases(b) == Ascii('N')
  {
  }

  /** Complementing twice gives back an upper-case DNA base. */
  lemma ComplBasesTwiceUpper(b: u8)
    requires b in {Ascii('A'), Ascii('C'), Ascii('G'), Ascii('T')}
    ensures ComplBases(ComplBases(b)) == b
  {
  }

  /** ... but not a lower-case base nor U: the table only produces upper-case DNA. */
  lemma ComplBasesTwiceOthers(b: u8)
    requires b in {Ascii('a'), Ascii('c'), Ascii('g'), Ascii('t'), Ascii('U'), Ascii('u')}
    ensures ComplBases(ComplBases(b)) != b
    ensures ComplBases(b) in {Ascii('A'), Ascii('C'), Ascii('G'), Ascii('T')}
  {
  }

  lemma SeqNt4TableEntries()
    ensures SeqNt4Table(Ascii('A')) == SeqNt4Table(Ascii('a')) == 0
    ensures SeqNt4Table(Ascii('C')) == SeqNt4Table(Ascii('c')) == 1
    ensures SeqNt4Table(Ascii('G')) == SeqNt4Table(Ascii('g')) == 2
    ensures SeqNt4Table(Ascii('T')) == SeqNt4Table(Ascii('t')) == 3
    ensures SeqNt4Table(Ascii('U')) == SeqNt4Table(Ascii('u')) == 3
  {
  }

  lemma SeqNt4TableRange(b: u8)
    ensures SeqNt4Table(b) <= 4
    ensures SeqNt4Table(b) < 4 <==> IsNucleotide(b)
  {
  }
}
