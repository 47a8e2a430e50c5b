/** FastaFile: a FASTA file held in memory -- where it lives (path and name),
    its sequence, and for DNA the reverse complement of that sequence.  Reading
    the file is I/O and is not modelled: the constructor receives the sequence
    that reading would have produced. */
module Fasta {
  import opened Outcomes

  /** The character that separates directories in a file name. */
  const Slash: char := '/'

  /** std::string::find_last_of for one character: the index of the last
      occurrence of c in s, or None (string::npos) when c does not occur. */
  function FindLastOf(s: string, c: char): (r: Option<nat>)
    ensures r.None? <==> c !in s
    ensures r.Some? ==> r.value < |s| && s[r.value] == c && c !in s[r.value + 1..]
  {
    if s == [] then None
    else if s[|s| - 1] == c then Some(|s| - 1)
    else
      var r := FindLastOf(s[..|s| - 1], c);
      assert s == s[..|s| - 1] + [s[|s| - 1]];
      r
  }

  /** The DNA complement of a base: A and T swap, G and C swap, any other
      character is its own complement. */
  function Complement(c: char): (r: char)
    ensures c in "ACGT" <==> r in "ACGT"
    ensures c !in "ACGT" ==> r == c
    ensures c in "ACGT" ==> r != c
  {
    if c == 'A' then 'T'
    else if c == 'T' then 'A'
    else if c == 'G' then 'C'
    else if c == 'C' then 'G'
    else c
  }

  /** Complementing twice gives back the character. */
  lemma ComplementInvolution(c: char)
    ensures Complement(Complement(c)) == c
  {
  }

  /** The reverse complement of s: read s backwards, complementing each base. */
  ghost function ReverseComplementOf(s: string): string {
    seq(|s|, i requires 0 <= i < |s| => Complement(s[|s| - 1 - i]))
  }

  /** Taking the reverse complement twice gives back the sequence. */
  lemma ReverseComplementInvolution(s: string)
    ensures ReverseComplementOf(ReverseComplementOf(s)) == s
  {
    var r := ReverseComplementOf(s);
    forall i | 0 <= i < |s|
      ensures ReverseComplementOf(r)[i] == s[i]
    {
      ComplementInvolution(s[i]);
    }
  }

  /** Slot of countBases' counts array a character is counted in: 0..3 for
      A, C, G, T, and 4 for any other character. */
  function BaseSlot(c: char): (k: nat)
    ensures k < 5
    ensures k < 4 <==> c in "ACGT"
    ensures k < 4 ==> "ACGT"[k] == c
  {
    if c == 'A' then 0
    else if c == 'C' then 1
    else if c == 'G' then 2
    else if c == 'T' then 3
    else 4
  }

  /** Number of characters of s counted in slot k. */
  function Tally(s: string, k: nat): nat {
    if s == [] then 0
    else Tally(s[..|s| - 1], k) + (if BaseSlot(s[|s| - 1]) == k then 1 else 0)
  }

  function TallySum(s: string): nat {
    Tally(s, 0) + Tally(s, 1) + Tally(s, 2) + Tally(s, 3) + Tally(s, 4)
  }

  /** Every character lands in exactly one slot: the five counts add up to
      the length of the sequence. */
  lemma {:induction false} TallyTotal(s: string)
    ensures TallySum(s) == |s|
  {
    if s != [] {
      TallyTotal(s[..|s| - 1]);
    }
  }

  /** A sequence made only of A, C, G and T leaves the "other" slot empty. */
  lemma {:induction false} TallyOtherZero(s: string)
    requires forall i :: 0 <= i < |s| ==> s[i] in "ACGT"
    ensures Tally(s, 4) == 0
  {
    if s != [] {
      TallyOtherZero(s[..|s| - 1]);
    }
  }

  /** The slot a base's complement is counted in: A and T swap slots, C and
      G swap slots, and the "other" slot stays. */
  function MirrorSlot(k: nat): nat {
    if k < 4 then 3 - k else k
  }

  lemma ComplementSlot(c: char)
    ensures BaseSlot(Complement(c)) == MirrorSlot(BaseSlot(c))
  {
  }

  /** The reverse complement has as many A as the sequence has T, as many C
      as it has G, and the same number of other characters. */
  lemma {:induction false} TallyReverseComplement(s: string, k: nat)
    ensures Tally(ReverseComplementOf(s), k) == Tally(s, MirrorSlot(k))
  {
    if s != [] {
      var init := s[..|s| - 1];
      var last := s[|s| - 1];
      TallyReverseComplement(init, k);
      var r := ReverseComplementOf(s);
      assert r == [Complement(last)] + ReverseComplementOf(init);
      TallyAppend([Complement(last)], ReverseComplementOf(init), k);
      assert [Complement(last)][..0] == [];
      ComplementSlot(last);
      assert Tally([Complement(last)], k) == (if BaseSlot(last) == MirrorSlot(k) then 1 else 0);
    }
  }

  lemma {:induction false} TallyAppend(a: string, b: string, k: nat)
    ensures Tally(a + b, k) == Tally(a, k) + Tally(b, k)
  {
    if b != [] {
      assert (a + b)[..|a + b| - 1] == a + b[..|b| - 1];
      TallyAppend(a, b[..|b| - 1], k);
    } else {
      assert a + b == a;
    }
  }

  class FastaFile {
    var dna: bool
    var filePath: string
    var fileName: string
    var sequence: string
    var reverseComplement: string

    /** FastaFile(name, dnaBool): split the name into path and file, take in
        the sequence the file holds, and for DNA build its reverse complement. */
    constructor (name: string, dnaBool: bool, contents: string)
      ensures dna == dnaBool && sequence == contents
      ensures Splits(name, filePath, fileName)
      ensures dna ==> reverseComplement == ReverseComplementOf(sequence)
    {
      dna := dnaBool;
      sequence := contents;
      new;
      ParseFileName(name);
      if dna {
        CreateReverseComplement();
      }
    }

    /** parseFileName: everything before the last slash is the path and
        everything after it the file name; with no slash the file is local
        and the path is ".". */
    method ParseFileName(aFileName: string)
      modifies this`filePath, this`fileName
      ensures Splits(aFileName, filePath, fileName)
    {
      var lastSlashPosition := FindLastOf(aFileName, Slash);
      if lastSlashPosition.None? {
        filePath := ".";
        fileName := aFileName;
      } else {
        filePath := aFileName[..lastSlashPosition.value];
        fileName := aFileName[lastSlashPosition.value + 1..];
      }
    }

    /** createReverseComplement: complement each base in order, then reverse. */
    method CreateReverseComplement()
      modifies this`reverseComplement
      ensures reverseComplement == ReverseComplementOf(sequence)
    {
      var complement: string := [];
      var i := 0;
      while i < |sequence|
        invariant 0 <= i <= |sequence|
        invariant |complement| == i
        invariant forall j :: 0 <= j < i ==> complement[j] == Complement(sequence[j])
      {
        complement := complement + [Complement(sequence[i])];
        i := i + 1;
      }
      reverseComplement := Reverse(complement);
    }

    /** countBases: adds to counts[0..3] the number of A, C, G and T in the
        sequence and to counts[4] the number of other characters. */
    method CountBases(counts: array<int>)
      requires counts.Length == 5
      modifies counts
      ensures forall k :: 0 <= k < 5 ==> counts[k] == old(counts[k]) + Tally(sequence, k)
    {
      var i := 0;
      while i < |sequence|
        invariant 0 <= i <= |sequence|
        invariant forall k :: 0 <= k < 5 ==> counts[k] == old(counts[k]) + Tally(sequence[..i], k)
      {
        assert sequence[..i + 1][..i] == sequence[..i];
        var currentChar := sequence[i];
        if currentChar == 'A' {
          counts[0] := counts[0] + 1;
        } else if currentChar == 'C' {
          counts[1] := counts[1] + 1;
        } else if currentChar == 'G' {
          counts[2] := counts[2] + 1;
        } else if currentChar == 'T' {
          counts[3] := counts[3] + 1;
        } else {
          counts[4] := counts[4] + 1;
        }
        i := i + 1;
      }
      assert sequence[..i] == sequence;
    }
  }

  /** How a file name splits into path and name: the name never holds a
      slash; with no slash at all the path is "."; otherwise rejoining path and
      name with a slash gives back the whole file name. */
  ghost predicate Splits(whole: string, path: string, name: string) {
    && Slash !in name
    && (Slash !in whole ==> path == "." && name == whole)
    && (Slash in whole ==> path + [Slash] + name == whole)
  }

  /** The file populate opens, path + "/" + name, is the one the caller
      named, except that a bare file name gains the prefix "./". */
  lemma OpenedFile(whole: string, path: string, name: string)
    requires Splits(whole, path, name)
    ensures path + "/" + name == (if Slash in whole then whole else "./" + whole)
  {
  }
}
