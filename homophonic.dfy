/** The homophonic substitution cipher (`HomophonicSubstitution`): each
    letter A..Z owns three distinct printable ASCII characters, and every
    letter of the text is replaced by one of its letter's three, picked at
    random. Other characters are copied, and those that are neither spaces
    nor ASCII letters are escaped by a preceding '\0' so that decryption
    copies them even when they look like a homophone. */
module Homophonic {
  import opened Wrappers
  import opened Text

  // ---------------------------------------------------------------------
  // the table

  /** The characters a table may use: '!' (33) to '~' (126). */
  predicate IsSubstitute(c: char) { 33 <= c as int <= 126 }

  /** Row `i` holds the three homophones of `Alphabet[i]`. */
  predicate IsTableShape(table: seq<seq<char>>) {
    |table| == 26 && forall i :: 0 <= i < 26 ==> |table[i]| == 3
  }

  /** What the constructor guarantees: 26 rows of 3 printable characters,
      no character used twice anywhere in the table. */
  predicate ValidTable(table: seq<seq<char>>) {
    && IsTableShape(table)
    && (forall i, a :: 0 <= i < 26 && 0 <= a < 3 ==> IsSubstitute(table[i][a]))
    && (forall i, a, j, b :: 0 <= i < 26 && 0 <= a < 3 && 0 <= j < 26 && 0 <= b < 3 && table[i][a] == table[j][b]
          ==> i == j && a == b)
  }

  /** The pool the constructor draws from: chr(33) .. chr(126). */
  function InitialPool(): (pool: seq<char>)
    ensures |pool| == 94
    ensures forall k :: 0 <= k < 94 ==> pool[k] as int == 33 + k
  {
    seq(94, k requires 0 <= k < 94 => (33 + k) as char)
  }

  /** No character occurs twice. */
  predicate Distinct(s: seq<char>) {
    forall a, b :: 0 <= a < b < |s| ==> s[a] != s[b]
  }

  /** `pool.remove(c)`: drop the first occurrence of `c`. */
  method Remove(pool: seq<char>, c: char) returns (rest: seq<char>)
    requires c in pool && Distinct(pool)
    ensures |rest| == |pool| - 1 && Distinct(rest)
    ensures forall x :: x in rest <==> x in pool && x != c
  {
    var found := Search(pool, c);
    var k := found.value;
    rest := pool[..k] + pool[k + 1..];
    forall x | x in pool && x != c
      ensures x in rest
    {
      var j :| 0 <= j < |pool| && pool[j] == x;
      if j < k {
        assert rest[j] == x;
      } else {
        assert j != k;
        assert rest[j - 1] == x;
      }
    }
  }

  /** Every character of the rows built so far, and of the row being built,
      is out of the pool and used once. */
  predicate Drawn(table: seq<seq<char>>, row: seq<char>, pool: seq<char>) {
    && (forall i :: 0 <= i < |table| ==> |table[i]| == 3)
    && (forall i, a :: 0 <= i < |table| && 0 <= a < 3 ==> IsSubstitute(table[i][a]) && table[i][a] !in pool)
    && (forall a :: 0 <= a < |row| ==> IsSubstitute(row[a]) && row[a] !in pool)
    && (forall i, a, j, b :: 0 <= i < |table| && 0 <= a < 3 && 0 <= j < |table| && 0 <= b < 3 && table[i][a] == table[j][b]
          ==> i == j && a == b)
    && (forall i, a, b :: 0 <= i < |table| && 0 <= a < 3 && 0 <= b < |row| ==> table[i][a] != row[b])
    && Distinct(row)
  }

  /** `_create_substitution_dict`: for each letter in turn, three draws from
      the pool, each removed from it. `draws(n) % |pool|` is the index the
      keyed generator's `n`-th `choice` returns. */
  method CreateSubstitutionTable(draws: nat -> nat) returns (table: seq<seq<char>>)
    ensures ValidTable(table)
  {
    var pool := InitialPool();
    table := [];
    var n := 0;
    while |table| < 26
      invariant |pool| == 94 - 3 * |table| && |table| <= 26
      invariant Distinct(pool) && forall x :: x in pool ==> IsSubstitute(x)
      invariant Drawn(table, [], pool)
    {
      var row := [];
      var i := 0;
      while i < 3
        invariant 0 <= i <= 3 && |row| == i
        invariant |pool| == 94 - 3 * |table| - i
        invariant Distinct(pool) && forall x :: x in pool ==> IsSubstitute(x)
        invariant Drawn(table, row, pool)
      {
        var c := pool[draws(n) % |pool|];
        pool := Remove(pool, c);
        row := row + [c];
        n := n + 1;
        i := i + 1;
      }
      AddRow(table, row, pool);
      table := table + [row];
    }
  }

  lemma AddRow(table: seq<seq<char>>, row: seq<char>, pool: seq<char>)
    requires Drawn(table, row, pool) && |row| == 3
    ensures Drawn(table + [row], [], pool)
  {
    var t := table + [row];
    forall i, a, j, b | 0 <= i < |t| && 0 <= a < 3 && 0 <= j < |t| && 0 <= b < 3 && t[i][a] == t[j][b]
      ensures i == j && a == b
    {
      if i == |table| && j == |table| {
        assert t[i] == row && t[j] == row;
      }
    }
  }

  // ---------------------------------------------------------------------
  // `_handle_text`

  /** What the escape loop emits for one character: a space or an ASCII
      letter as it is, anything else behind a '\0'. */
  function EscapeChar(c: char): string {
    if c != ' ' && !IsAsciiLetter(c) then ['\0', c] else [c]
  }

  function Escape(s: string): string {
    if s == [] then [] else Escape(s[..|s| - 1]) + EscapeChar(s[|s| - 1])
  }

  /** `char.upper() in self._alphabet` holds exactly for ASCII letters. */
  lemma UpperInAlphabet(c: char)
    ensures Upper(c) in Alphabet <==> IsAsciiLetter(c)
  {
    AlphabetLookup(c);
    if Upper(c) in Alphabet {
      var k :| 0 <= k < |Alphabet| && Alphabet[k] == Upper(c);
      assert FirstIndex(Alphabet, Upper(c)).Some?;
    }
  }

  /** `_handle_text`: the shared normalisation, then the escape loop. */
  method HandleText(text: string) returns (prepared: string)
    ensures prepared == Escape(Normalise(text))
  {
    var handled := Text.HandleText(text);
    prepared := EscapeLoop(handled);
  }

  /** The escape loop of `_handle_text`. */
  method EscapeLoop(handled: string) returns (prepared: string)
    ensures prepared == Escape(handled)
  {
    prepared := "";
    var i := 0;
    while i < |handled|
      invariant 0 <= i <= |handled|
      invariant prepared == Escape(handled[..i])
    {
      var c := handled[i];
      EscapePrefix(handled, i);
      UpperInAlphabet(c);
      if c != ' ' && Upper(c) !in Alphabet {
        prepared := prepared + ['\0', c];
      } else {
        prepared := prepared + [c];
      }
      i := i + 1;
    }
    assert handled[..i] == handled;
  }

  /** Escaping one more character of a prefix. */
  lemma EscapePrefix(s: string, i: nat)
    requires i < |s|
    ensures Escape(s[..i + 1]) == Escape(s[..i]) + EscapeChar(s[i])
  {
    assert s[..i + 1][..i] == s[..i];
  }

  // ---------------------------------------------------------------------
  // `encrypt`

  /** What `encrypt` emits for one character: for an ASCII letter, the
      homophone of its upper case numbered `pick % 3`; anything else as it is. */
  function EncryptChar(table: seq<seq<char>>, c: char, pick: nat): char
    requires IsTableShape(table)
  {
    if IsAsciiLetter(c) then table[Upper(c) as int - 'A' as int][pick % 3] else c
  }

  /** `picks(k)` is the choice the unseeded generator makes for the character
      at position `k`. */
  function EncryptText(table: seq<seq<char>>, picks: nat -> nat, s: string): (r: string)
    requires IsTableShape(table)
    ensures |r| == |s|
  {
    seq(|s|, k requires 0 <= k < |s| => EncryptChar(table, s[k], picks(k)))
  }

  /** `encrypt`: prepare the text, then look every character up among the
      letters of the table. */
  method Encrypt(table: seq<seq<char>>, picks: nat -> nat, text: string) returns (r: string)
    requires IsTableShape(table)
    ensures r == EncryptText(table, picks, Escape(Normalise(text)))
  {
    var handled := HandleText(text);
    r := "";
    var i := 0;
    while i < |handled|
      invariant 0 <= i <= |handled|
      invariant r == EncryptText(table, picks, handled[..i])
    {
      var e := EncryptOne(table, handled[i], picks(i));
      EncryptTextPrefix(table, picks, handled, i);
      r := r + [e];
      i := i + 1;
    }
    assert handled[..i] == handled;
  }

  /** Encrypting one more character of a prefix. */
  lemma EncryptTextPrefix(table: seq<seq<char>>, picks: nat -> nat, s: string, i: nat)
    requires IsTableShape(table) && i < |s|
    ensures EncryptText(table, picks, s[..i + 1])
      == EncryptText(table, picks, s[..i]) + [EncryptChar(table, s[i], picks(i))]
  {
  }

  /** The inner loop of `encrypt` for one character: the first letter of the
      table equal to the character's upper case, or none. */
  method EncryptOne(table: seq<seq<char>>, c: char, pick: nat) returns (e: char)
    requires IsTableShape(table)
    ensures e == EncryptChar(table, c, pick)
  {
    var j := 0;
    while j < 26
      invariant 0 <= j <= 26
      invariant forall k :: 0 <= k < j ==> Upper(c) != Alphabet[k]
    {
      AlphabetAt(j);
      if Upper(c) == Alphabet[j] {
        return table[j][pick % 3];
      }
      j := j + 1;
    }
    if IsAsciiLetter(c) {
      AlphabetAt(Upper(c) as int - 'A' as int);
      assert false;
    }
    e := c;
  }

  // ---------------------------------------------------------------------
  // `decrypt`

  /** The first row of the table holding `c`. */
  function Owner(table: seq<seq<char>>, c: char, from: nat): (r: Option<nat>)
    ensures r.Some? ==> from <= r.value < |table| && c in table[r.value]
    ensures r.None? ==> forall j :: from <= j < |table| ==> c !in table[j]
    decreases |table| - from
  {
    if from >= |table| then None
    else if c in table[from] then Some(from)
    else Owner(table, c, from + 1)
  }

  /** The state of the decryption loop: the text so far and the escape flag. */
  datatype State = State(text: string, special: bool)

  /** One character of the decryption loop. */
  function Step(table: seq<seq<char>>, st: State, c: char): State
    requires |table| == 26
  {
    if st.special then State(st.text + [c], false)
    else
      match Owner(table, c, 0)
      case Some(j) => State(st.text + [Alphabet[j]], false)
      case None => if c == '\0' then State(st.text, true) else State(st.text + [c], false)
  }

  /** The decryption loop over `s`. */
  function Run(table: seq<seq<char>>, s: string): State
    requires |table| == 26
  {
    if s == [] then State([], false) else Step(table, Run(table, s[..|s| - 1]), s[|s| - 1])
  }

  /** `decrypt`: strip, then run the loop. */
  method Decrypt(table: seq<seq<char>>, cipherText: string) returns (r: string)
    requires IsTableShape(table)
    ensures r == Run(table, Strip(cipherText)).text
  {
    var handled := Strip(cipherText);
    r := DecryptHandled(table, handled);
  }

  /** The loop of `decrypt` over the stripped cipher text. */
  method DecryptHandled(table: seq<seq<char>>, handled: string) returns (r: string)
    requires IsTableShape(table)
    ensures r == Run(table, handled).text
  {
    var decrypted := "";
    var isSpecial := false;
    var i := 0;
    while i < |handled|
      invariant 0 <= i <= |handled|
      invariant State(decrypted, isSpecial) == Run(table, handled[..i])
    {
      assert handled[..i + 1][..i] == handled[..i];
      decrypted, isSpecial := DecryptOne(table, decrypted, isSpecial, handled[i]);
      i := i + 1;
    }
    assert handled[..i] == handled;
    r := decrypted;
  }

  /** The inner loop of `decrypt` for one character, with its `else` branch. */
  method DecryptOne(table: seq<seq<char>>, decrypted: string, isSpecial: bool, c: char)
    returns (decrypted': string, isSpecial': bool)
    requires IsTableShape(table)
    ensures State(decrypted', isSpecial') == Step(table, State(decrypted, isSpecial), c)
  {
    decrypted', isSpecial' := decrypted, isSpecial;
    var j := 0;
    while j < 26
      invariant 0 <= j <= 26
      invariant !isSpecial ==> Owner(table, c, 0) == Owner(table, c, j)
      invariant isSpecial ==> j == 0
      invariant decrypted' == decrypted && isSpecial' == isSpecial
    {
      if isSpecial' {
        return decrypted' + [c], false;
      }
      if c in table[j] {
        assert Owner(table, c, j) == Some(j);
        return decrypted' + [Alphabet[j]], isSpecial';
      }
      assert Owner(table, c, j) == Owner(table, c, j + 1);
      j := j + 1;
    }
    assert Owner(table, c, j) == None;
    if c == '\0' {
      isSpecial' := true;
    } else {
      decrypted' := decrypted' + [c];
    }
  }

  // ---------------------------------------------------------------------
  // properties

  /** The decryption of `encrypt`'s output for text `s`: ASCII letters in upper
      case, everything else as it is. */
  function Revealed(s: string): (r: string)
    ensures |r| == |s|
  {
    seq(|s|, k requires 0 <= k < |s| => if IsAsciiLetter(s[k]) then Upper(s[k]) else s[k])
  }

  /** A homophone decrypts to its letter. */
  lemma OwnerOfHomophone(table: seq<seq<char>>, i: nat, a: nat)
    requires ValidTable(table) && i < 26 && a < 3
    ensures Owner(table, table[i][a], 0) == Some(i)
  {
    assert table[i][a] in table[i];
  }

  /** Nothing outside '!'..'~' belongs to the table. */
  lemma OwnerOfOther(table: seq<seq<char>>, c: char)
    requires ValidTable(table) && !IsSubstitute(c)
    ensures Owner(table, c, 0) == None
  {
  }

  lemma EncryptPrefix(table: seq<seq<char>>, picks: nat -> nat, s: string, m: nat)
    requires IsTableShape(table) && m <= |s|
    ensures EncryptText(table, picks, s)[..m] == EncryptText(table, picks, s[..m])
  {
  }

  lemma RunSnoc(table: seq<seq<char>>, s: string, c: char)
    requires |table| == 26
    ensures Run(table, s + [c]) == Step(table, Run(table, s), c)
  {
    assert (s + [c])[..|s|] == s;
  }

  /** An escaped character after a '\0' is copied, whatever it is. */
  lemma RunEscapedPair(table: seq<seq<char>>, p: string, c: char)
    requires ValidTable(table) && !Run(table, p).special
    ensures Run(table, p + ['\0', c]) == State(Run(table, p).text + [c], false)
  {
    OwnerOfOther(table, '\0');
    RunSnoc(table, p, '\0');
    assert p + ['\0', c] == (p + ['\0']) + [c];
    RunSnoc(table, p + ['\0'], c);
  }

  /** A homophone of row `i` decrypts to `Alphabet[i]`. */
  lemma RunHomophone(table: seq<seq<char>>, p: string, i: nat, a: nat)
    requires ValidTable(table) && !Run(table, p).special && i < 26 && a < 3
    ensures Run(table, p + [table[i][a]]) == State(Run(table, p).text + [Alphabet[i]], false)
  {
    OwnerOfHomophone(table, i, a);
    RunSnoc(table, p, table[i][a]);
  }

  /** A space is copied. */
  lemma RunSpace(table: seq<seq<char>>, p: string)
    requires ValidTable(table) && !Run(table, p).special
    ensures Run(table, p + [' ']) == State(Run(table, p).text + [' '], false)
  {
    OwnerOfOther(table, ' ');
    RunSnoc(table, p, ' ');
  }

  /** The encryption of escaped text, split at its last character. */
  lemma EncryptEscapeSnoc(table: seq<seq<char>>, picks: nat -> nat, s: string)
    requires IsTableShape(table) && s != []
    ensures var init := s[..|s| - 1];
      var c := s[|s| - 1];
      var m := |Escape(init)|;
      var e := EncryptText(table, picks, Escape(s));
      e == EncryptText(table, picks, Escape(init))
        + (if c != ' ' && !IsAsciiLetter(c) then ['\0', c] else [EncryptChar(table, c, picks(m))])
  {
    var init := s[..|s| - 1];
    var c := s[|s| - 1];
    var p := Escape(init);
    assert Escape(s) == p + EscapeChar(c);
    EncryptSplit(table, picks, p, EscapeChar(c));
    EncryptEscapeChar(table, picks, p, c);
  }

  /** Encrypting a concatenation: the first part as on its own, then the
      rest. */
  lemma EncryptSplit(table: seq<seq<char>>, picks: nat -> nat, p: string, y: string)
    requires IsTableShape(table)
    ensures var e := EncryptText(table, picks, p + y);
      e == EncryptText(table, picks, p) + e[|p|..]
  {
    var e := EncryptText(table, picks, p + y);
    EncryptPrefix(table, picks, p + y, |p|);
    assert (p + y)[..|p|] == p;
    assert e == e[..|p|] + e[|p|..];
  }

  /** What the escaped form of one character encrypts to after a prefix. */
  lemma EncryptEscapeChar(table: seq<seq<char>>, picks: nat -> nat, p: string, c: char)
    requires IsTableShape(table)
    ensures EncryptText(table, picks, p + EscapeChar(c))[|p|..]
      == if c != ' ' && !IsAsciiLetter(c) then ['\0', c] else [EncryptChar(table, c, picks(|p|))]
  {
    var x := p + EscapeChar(c);
    var e := EncryptText(table, picks, x);
    if c != ' ' && !IsAsciiLetter(c) {
      assert x[|p|] == '\0' && x[|p| + 1] == c;
      assert e[|p|] == EncryptChar(table, '\0', picks(|p|)) == '\0';
      assert e[|p| + 1] == EncryptChar(table, c, picks(|p| + 1)) == c;
      assert e[|p|..] == [e[|p|], e[|p| + 1]];
    } else {
      assert x[|p|] == c;
      assert e[|p|..] == [e[|p|]];
    }
  }

  /** Decrypting what `encrypt` emits for the prepared text gives each ASCII
      letter in upper case and every other character back, whatever the
      homophones picked. */
  lemma {:induction false} RunEncrypted(table: seq<seq<char>>, picks: nat -> nat, s: string)
    requires ValidTable(table)
    ensures Run(table, EncryptText(table, picks, Escape(s))) == State(Revealed(s), false)
  {
    if s != [] {
      RunEncrypted(table, picks, s[..|s| - 1]);
      RunEncryptedLast(table, picks, s);
    }
  }

  /** The step of that induction: one more character of the text. */
  lemma RunEncryptedLast(table: seq<seq<char>>, picks: nat -> nat, s: string)
    requires ValidTable(table) && s != []
    requires Run(table, EncryptText(table, picks, Escape(s[..|s| - 1]))) == State(Revealed(s[..|s| - 1]), false)
    ensures Run(table, EncryptText(table, picks, Escape(s))) == State(Revealed(s), false)
  {
    var c := s[|s| - 1];
    EncryptEscapeSnoc(table, picks, s);
    RevealedSnoc(s);
    if c != ' ' && !IsAsciiLetter(c) {
      LastEscaped(table, picks, s);
    } else if IsAsciiLetter(c) {
      LastLetter(table, picks, s);
    } else {
      RunSpace(table, EncryptText(table, picks, Escape(s[..|s| - 1])));
    }
  }

  lemma LastEscaped(table: seq<seq<char>>, picks: nat -> nat, s: string)
    requires ValidTable(table) && s != []
    requires s[|s| - 1] != ' ' && !IsAsciiLetter(s[|s| - 1])
    requires !Run(table, EncryptText(table, picks, Escape(s[..|s| - 1]))).special
    ensures var p := EncryptText(table, picks, Escape(s[..|s| - 1]));
      Run(table, p + ['\0', s[|s| - 1]]) == State(Run(table, p).text + [s[|s| - 1]], false)
  {
    RunEscapedPair(table, EncryptText(table, picks, Escape(s[..|s| - 1])), s[|s| - 1]);
  }

  lemma LastLetter(table: seq<seq<char>>, picks: nat -> nat, s: string)
    requires ValidTable(table) && s != [] && IsAsciiLetter(s[|s| - 1])
    requires !Run(table, EncryptText(table, picks, Escape(s[..|s| - 1]))).special
    ensures var p := EncryptText(table, picks, Escape(s[..|s| - 1]));
      var c := s[|s| - 1];
      Run(table, p + [EncryptChar(table, c, picks(|Escape(s[..|s| - 1])|))]) == State(Run(table, p).text + [Upper(c)], false)
  {
    var c := s[|s| - 1];
    var m := |Escape(s[..|s| - 1])|;
    var i := Upper(c) as int - 'A' as int;
    AlphabetAt(i);
    RunHomophone(table, EncryptText(table, picks, Escape(s[..|s| - 1])), i, picks(m) % 3);
  }

  lemma RevealedSnoc(s: string)
    requires s != []
    ensures var c := s[|s| - 1];
      Revealed(s) == Revealed(s[..|s| - 1]) + [if IsAsciiLetter(c) then Upper(c) else c]
  {
  }

  /** Escaped text that was stripped is still stripped, and so is its
      encryption. */
  lemma EncryptedStripped(table: seq<seq<char>>, picks: nat -> nat, s: string)
    requires ValidTable(table) && IsStripped(s)
    ensures IsStripped(EncryptText(table, picks, Escape(s)))
  {
    if s != [] {
      var x := Escape(s);
      EscapeEnds(s);
      EncryptedEnd(table, picks, x, 0);
      EncryptedEnd(table, picks, x, |x| - 1);
    }
  }

  /** A character of escaped, stripped text that is not a space encrypts to
      a character that is not a space. */
  lemma EncryptedEnd(table: seq<seq<char>>, picks: nat -> nat, x: string, k: nat)
    requires ValidTable(table) && k < |x| && !IsSpace(x[k])
    ensures !IsSpace(EncryptText(table, picks, x)[k])
  {
    var e := EncryptText(table, picks, x);
    assert e[k] == EncryptChar(table, x[k], picks(k));
    if IsAsciiLetter(x[k]) {
      var i := Upper(x[k]) as int - 'A' as int;
      assert e[k] == table[i][picks(k) % 3];
      SubstituteNotSpace(table[i][picks(k) % 3]);
    } else {
      assert e[k] == x[k];
    }
  }

  lemma SubstituteNotSpace(c: char)
    requires IsSubstitute(c)
    ensures !IsSpace(c)
  {
  }

  /** The escaped text starts with '\0' or the first character, and ends
      with the last character. */
  lemma {:induction false} EscapeEnds(s: string)
    requires s != []
    ensures var x := Escape(s);
      && x != []
      && x[|x| - 1] == s[|s| - 1]
      && (x[0] == '\0' || x[0] == s[0])
  {
    var init := s[..|s| - 1];
    var y := EscapeChar(s[|s| - 1]);
    assert Escape(s) == Escape(init) + y;
    if |s| > 1 {
      EscapeEnds(init);
      assert init[0] == s[0];
    } else {
      assert init == [];
    }
  }

  /** The round trip: decrypting what `encrypt` produced gives the normalised
      text with its ASCII letters in upper case, for every table the
      constructor can build and every choice of homophones. */
  lemma RoundTrip(table: seq<seq<char>>, picks: nat -> nat, text: string)
    requires ValidTable(table)
    ensures Run(table, Strip(EncryptText(table, picks, Escape(Normalise(text))))).text == Revealed(Normalise(text))
  {
    var n := Normalise(text);
    NormaliseIsNormal(text);
    EncryptedStripped(table, picks, n);
    RunEncrypted(table, picks, n);
  }
}
