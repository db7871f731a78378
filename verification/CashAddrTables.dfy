/** The characters of cashaddr symbols. */
module CashAddrTables {
  import opened CashAddrPoly

  /** The table of characters. */
  function Charset(n: Symbol): char {
    match n
    case 0 => 'q'
    case 1 => 'p'
    case 2 => 'z'
    case 3 => 'r'
    case 4 => 'y'
    case 5 => '9'
    case 6 => 'x'
    case 7 => '8'
    case 8 => 'g'
    case 9 => 'f'
    case 10 => '2'
    case 11 => 't'
    case 12 => 'v'
    case 13 => 'd'
    case 14 => 'w'
    case 15 => '0'
    case 16 => 's'
    case 17 => '3'
    case 18 => 'j'
    case 19 => 'n'
    case 20 => '5'
    case 21 => '4'
    case 22 => 'k'
    case 23 => 'h'
    case 24 => 'c'
    case 25 => 'e'
    case 26 => '6'
    case 27 => 'm'
    case 28 => 'u'
    case 29 => 'a'
    case 30 => '7'
    case _ => 'l'
  }

  /** The table of symbols by character code: both cases of a letter have the same, and some have none. */
  function CharsetRev(c: nat): int {
    match c
    case 48 => 15
    case 50 => 10
    case 51 => 17
    case 52 => 21
    case 53 => 20
    case 54 => 26
    case 55 => 30
    case 56 => 7
    case 57 => 5
    case 65 => 29
    case 67 => 24
    case 68 => 13
    case 69 => 25
    case 70 => 9
    case 71 => 8
    case 72 => 23
    case 74 => 18
    case 75 => 22
    case 76 => 31
    case 77 => 27
    case 78 => 19
    case 80 => 1
    case 81 => 0
    case 82 => 3
    case 83 => 16
    case 84 => 11
    case 85 => 28
    case 86 => 12
    case 87 => 14
    case 88 => 6
    case 89 => 4
    case 90 => 2
    case 97 => 29
    case 99 => 24
    case 100 => 13
    case 101 => 25
    case 102 => 9
    case 103 => 8
    case 104 => 23
    case 106 => 18
    case 107 => 22
    case 108 => 31
    case 109 => 27
    case 110 => 19
    case 112 => 1
    case 113 => 0
    case 114 => 3
    case 115 => 16
    case 116 => 11
    case 117 => 28
    case 118 => 12
    case 119 => 14
    case 120 => 6
    case 121 => 4
    case 122 => 2
    case _ => -1
  }

  /** Lower case, for letters. */
  function Lower(c: char): char { if 'A' <= c <= 'Z' then (c as int + 32) as char else c }

  predicate IsLower(c: char) { 'a' <= c <= 'z' }
  predicate IsUpper(c: char) { 'A' <= c <= 'Z' }
  predicate IsDigit(c: char) { '0' <= c <= '9' }

  /** The characters in the order of their symbols. */
  lemma CharsetIs(n: Symbol)
    ensures Charset(n) == "qpzry9x8gf2tvdw0s3jn54khce6mua7l"[n]
  {
  }

  /** A symbol's character has that symbol in the table, and is a small letter or a digit. */
  lemma Characters(n: Symbol)
    ensures CharsetRev(Charset(n) as int) == n && (IsLower(Charset(n)) || IsDigit(Charset(n)))
  {
  }

  /** A character with a symbol in the table is, in lower case, that symbol's character. */
  lemma Entries(c: char)
    requires CharsetRev(c as int) != -1
    ensures 0 <= CharsetRev(c as int) < 32 && Charset(CharsetRev(c as int)) == Lower(c)
    ensures c as int < 128
  {
  }
}
