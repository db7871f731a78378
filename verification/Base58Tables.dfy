/** The characters of base 58. */
module Base58Tables {

  /** The digits and letters except for 0, I, O and l. */
  function Char58(n: nat): char {
    match n
    case 0 => '1'
    case 1 => '2'
    case 2 => '3'
    case 3 => '4'
    case 4 => '5'
    case 5 => '6'
    case 6 => '7'
    case 7 => '8'
    case 8 => '9'
    case 9 => 'A'
    case 10 => 'B'
    case 11 => 'C'
    case 12 => 'D'
    case 13 => 'E'
    case 14 => 'F'
    case 15 => 'G'
    case 16 => 'H'
    case 17 => 'J'
    case 18 => 'K'
    case 19 => 'L'
    case 20 => 'M'
    case 21 => 'N'
    case 22 => 'P'
    case 23 => 'Q'
    case 24 => 'R'
    case 25 => 'S'
    case 26 => 'T'
    case 27 => 'U'
    case 28 => 'V'
    case 29 => 'W'
    case 30 => 'X'
    case 31 => 'Y'
    case 32 => 'Z'
    case 33 => 'a'
    case 34 => 'b'
    case 35 => 'c'
    case 36 => 'd'
    case 37 => 'e'
    case 38 => 'f'
    case 39 => 'g'
    case 40 => 'h'
    case 41 => 'i'
    case 42 => 'j'
    case 43 => 'k'
    case 44 => 'm'
    case 45 => 'n'
    case 46 => 'o'
    case 47 => 'p'
    case 48 => 'q'
    case 49 => 'r'
    case 50 => 's'
    case 51 => 't'
    case 52 => 'u'
    case 53 => 'v'
    case 54 => 'w'
    case 55 => 'x'
    case 56 => 'y'
    case _ => 'z'
  }

  /** The digit of a character code, or -1. */
  function Map58(c: nat): int {
    match c
    case 49 => 0
    case 50 => 1
    case 51 => 2
    case 52 => 3
    case 53 => 4
    case 54 => 5
    case 55 => 6
    case 56 => 7
    case 57 => 8
    case 65 => 9
    case 66 => 10
    case 67 => 11
    case 68 => 12
    case 69 => 13
    case 70 => 14
    case 71 => 15
    case 72 => 16
    case 74 => 17
    case 75 => 18
    case 76 => 19
    case 77 => 20
    case 78 => 21
    case 80 => 22
    case 81 => 23
    case 82 => 24
    case 83 => 25
    case 84 => 26
    case 85 => 27
    case 86 => 28
    case 87 => 29
    case 88 => 30
    case 89 => 31
    case 90 => 32
    case 97 => 33
    case 98 => 34
    case 99 => 35
    case 100 => 36
    case 101 => 37
    case 102 => 38
    case 103 => 39
    case 104 => 40
    case 105 => 41
    case 106 => 42
    case 107 => 43
    case 109 => 44
    case 110 => 45
    case 111 => 46
    case 112 => 47
    case 113 => 48
    case 114 => 49
    case 115 => 50
    case 116 => 51
    case 117 => 52
    case 118 => 53
    case 119 => 54
    case 120 => 55
    case 121 => 56
    case 122 => 57
    case _ => -1
  }

  predicate IsSpace(c: char) {
    c == ' ' || c as int == 12 || c == '\n' || c == '\r' || c == '\t' || c as int == 11
  }

  /** The digits are all letters and digits except 0, I, O and l, in the order of their codes. */
  lemma CharsAre(c: char)
    ensures Map58(c as int) != -1 <==>
            ('0' <= c <= '9' || 'A' <= c <= 'Z' || 'a' <= c <= 'z') && c != '0' && c != 'I' && c != 'O' && c != 'l'
  {
  }

  lemma {:induction false} InOrder(m: nat, n: nat)
    requires m < n < 58
    ensures Char58(m) < Char58(n)
  {
    if m + 1 < n {
      InOrder(m, n - 1);
    }
    NextChar(n - 1);
  }

  lemma NextChar(n: nat)
    requires n < 57
    ensures Char58(n) < Char58(n + 1)
  {
  }

  lemma DigitOfChar(n: nat)
    requires n < 58
    ensures Map58(Char58(n) as int) == n && !IsSpace(Char58(n)) && Char58(n) as int != 0
    ensures Char58(n) == '1' <==> n == 0
  {
  }

  lemma CharOfDigit(c: char)
    requires Map58(c as int) != -1
    ensures 0 <= Map58(c as int) < 58 && Char58(Map58(c as int)) == c
  {
  }
}
