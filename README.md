# fast-encrypt in Dafny

A model of the fast-encrypt library. It covers:

- the RSA engine;
- six classical ciphers: Caesar, Atbash, keyed substitution, Vigenère,
  homophonic substitution and Morse code;
- the `Pipeline` that chains ciphers.

Each source file becomes one Dafny module: `Rsa`, `Caesar`, `Atbash`,
`Substitution`, `Vigenere`, `Homophonic`, `Morse` and `Pipeline`. Shared
modules hold what the library gets from Python itself:

- `Text`: the string primitives (case mapping, `strip`, single-character
  `replace`, `split`/`join`, `list.reverse`) and the accent-folding
  normalisation that five ciphers run before they encrypt;
- `Decimal`: `str(int)` and `int(str)`;
- `NumberTheory`: powers, gcd, primes, Fermat's little theorem and the RSA
  identity, all proved here;
- `Wrappers`: `Result`/`Outcome`/`Option`, which carry the library's
  `ValueError`s.

Each loop of the source becomes a Dafny method with its loop invariants. Each
method is proved equal to a specification function, and the ciphers'
properties are proved about those functions. The properties include:

- the round trips, where decrypting what was encrypted gives back the
  normalised text;
- the exact error conditions and messages;
- that the tables are bijections;
- the documented examples.

The constructors that only check their arguments become functions or methods
returning a `Result`. The constructed cipher is a value: the shift, the key,
the table.

Characters follow Python's `str.upper`, `str.lower`, `str.isalpha` and
`str.isupper` exactly for code points up to U+00FF. Above U+00FF, characters
are treated as case-less non-letters. Whitespace follows `str.isspace` in
full.

'ß' is the one character up to U+00FF whose upper case, "SS", is two
characters long. The model handles it in two ways:

- The single-character `Text.Upper` keeps 'ß' as it is. That is what the
  library's comparisons `char.upper() == ...` observe, since "SS" equals no
  single letter.
- `Text.UpperText`, the upper case of a whole string, spells it out as
  "SS". Morse code upper-cases its whole text, so there 'ß' becomes "SS".

Caesar and Vigenère take `ord(char.upper())` of every letter, so a 'ß' in
their text makes them fail with the `TypeError` of `ord`.

The fold table of `src/fast_encrypt/_morse_code.py:125-132` appears in the
source as mis-encoded text: each accented capital is written as two other
characters (for instance 'ГҒ' where 'Á' is meant). The accented words of the
test input at `tests/test_morse_code.py:48` are mis-encoded too. The
expected output of that test ("REPUBLICA", "PAIS", "POPULACAO") needs each
accented letter folded to its base letter, and only the intended reading
gives that. So `Morse.FoldAccents` folds the Latin-1 capitals that the
Caesar and Atbash fold tables list.

Randomness is modelled as follows:

- `secrets.randbelow` and `secrets.randbits` draw from a `Random` object: a
  fixed stream of numbers and a cursor;
- the keyed `random.Random` of the homophonic cipher becomes the `draws`
  parameter;
- its per-character `random.choice` becomes the `picks` parameter.

A homophonic step of a pipeline carries one fixed `picks`. So every
`encrypt` through the same pipeline value chooses the same homophones. The
source makes fresh `random.choice` calls on every call.

The source loops forever until a random draw succeeds. Here such loops take
a `fuel` bound.

The model records three behaviours of the source as written:

- An RSA key length below 1024 is refused with a message that says "bigger
  than 2048" (`Rsa.New`).
- A Vigenère key of spaces only passes validation. It is stripped to the
  empty key, and encrypting any letter with it then fails with a modulo by
  zero (`Vigenere.BlankKeyAccepted`, `Vigenere.Encrypt`).
- A substitution key is validated after stripping, but the table is built
  from the raw key. So " BCDEFGHIJKLMNOPQRSTUVWXYZ" is accepted and gives a
  table that is not a permutation (`Substitution.UnstrippedKeyBreaksTable`).
  A pipeline runs such a step like any other; only the round-trip lemmas
  ask for a permutation table (`Pipeline.UnstrippedSubstitutionStep`).

## Model

| member | source | states |
|---|---|---|
| Rsa.New | src/fast_encrypt/_rsa.py:56-81 | a key length is accepted exactly when it is at least 1024; a refused length raises ValueError with the message as written ("bigger than 2048") |
| Rsa.Random.RandBelow | src/fast_encrypt/_rsa.py:98 | `secrets.randbelow(bound)`: a number in [0, bound) taken from the next position of the random stream |
| Rsa.Random.RandBits | src/fast_encrypt/_rsa.py:133 | `secrets.randbits(k)`: a number below 2^k taken from the next position of the random stream |
| Rsa.CandidateRange | src/fast_encrypt/_rsa.py:132-136 | or-ing the top bit and bit 0 into k random bits gives an odd number of exactly k bits |
| Rsa.GeneratePrimeCandidate | src/fast_encrypt/_rsa.py:132-136 | the candidate is the next draw with the top and bottom bits set: odd, at least 2^(k-1) and below 2^k |
| Rsa.IsPrime | src/fast_encrypt/_rsa.py:118-130 | numbers below 2 are refused, 2 and 3 accepted without drawing, otherwise accepted exactly when none of 128 random bases is a Fermat witness; a refusal stops at the first witness drawn |
| Rsa.FermatRounds | src/fast_encrypt/_rsa.py:124-130 | the 128-round loop returns true exactly when no drawn base x has pow(x, n-1, n) != 1, and stops at the first one that does |
| Rsa.PassesStep | src/fast_encrypt/_rsa.py:126-129 | one more round without a witness extends the passed prefix (loop invariant of the Fermat loop) |
| Rsa.WitnessStops | src/fast_encrypt/_rsa.py:128-129 | a witness within the 128 rounds makes the number fail the test |
| Rsa.PrimeAccepted | src/fast_encrypt/_rsa.py:118-130 | every prime is accepted whatever the draws (Fermat's little theorem) |
| Rsa.FourCanBeAccepted | src/fast_encrypt/_rsa.py:111-130 | the test is probabilistic: with every base equal to 1 the composite start value 4 is accepted |
| Rsa.GeneratePrimeNumber | src/fast_encrypt/_rsa.py:110-116 | a returned number passed the Fermat test made with the last 128 draws of this call, and is either the start value 4 or an odd number of exactly key-length bits |
| Rsa.PyPow | src/fast_encrypt/_rsa.py:103 | three-argument `pow`: fails exactly for modulus 0 or a negative exponent whose base is not invertible; otherwise the result lies between 0 and the modulus, on the modulus's side |
| Rsa.PyPowNatural | src/fast_encrypt/_rsa.py:171 | with a non-negative exponent and modulus above 1, `pow(b, e, m)` is b^e mod m |
| Rsa.PyPowInverse | src/fast_encrypt/_rsa.py:103 | `pow(e, -1, phi)` succeeds for e coprime to phi and returns d in [0, phi) with e*d = 1 mod phi |
| Rsa.Chr | src/fast_encrypt/_rsa.py:228 | `chr(v)` succeeds only with the character whose code point is v |
| Rsa.ChrOrd | src/fast_encrypt/_rsa.py:228 | `chr(ord(c)) == c` for every character |
| Rsa.GenerateKeypair | src/fast_encrypt/_rsa.py:93-108 | when it returns, p and q were accepted by Fermat tests made with draws of this call; n = p*q for both keys; e is in [1, phi) and coprime to phi; d*e = 1 mod phi |
| Rsa.ValidateKey | src/fast_encrypt/_rsa.py:175-177 | a key tuple is accepted exactly when it has two items, which it unpacks to; otherwise ValueError("The given value must be tuple[int, int].") |
| Rsa.ValidateItems | src/fast_encrypt/_rsa.py:169 | the tuple (e, n) of a key is accepted and unpacks to that key |
| Rsa.WrongKeyLength | src/fast_encrypt/_rsa.py:164-181 | `encrypt` and `decrypt` with a key tuple of the wrong length fail with that ValueError, before the text is looked at |
| Rsa.EncryptCharsValues | src/fast_encrypt/_rsa.py:171 | every character is encrypted to the decimal string of ord(c)^e mod n |
| Rsa.EncryptTokens | src/fast_encrypt/_rsa.py:164-173 | `encrypt` of a text that is not blank succeeds with a stripped, space-separated list of one decimal number per character of the stripped text, each ord(c)^e mod n |
| Rsa.JoinedTokens | src/fast_encrypt/_rsa.py:173 | joining the decimal tokens with spaces and splitting on spaces gives them back, and each parses to its value |
| Rsa.DecryptTokensValues | src/fast_encrypt/_rsa.py:226-230 | decryption maps each token through int, pow(., d, n) and chr and concatenates the characters |
| Rsa.CharRoundTrip | src/fast_encrypt/_rsa.py:171 | for distinct primes p, q and a key pair derived from them, pow(m^e mod n, d, n) == m for every code point m below n |
| Rsa.RoundTrip | src/fast_encrypt/_rsa.py:164-232 | decrypt(private, encrypt(public, text)) is the stripped text, for key pairs over two distinct primes and characters below n |
| Rsa.BlankText | src/fast_encrypt/_rsa.py:164-232 | a blank text encrypts to the empty string, and decrypting the empty string raises the ValueError of `int('')` |
| Rsa.EmptyTokenFails | src/fast_encrypt/_rsa.py:226-228 | a cipher text with an empty token (two spaces in a row) fails to decrypt |
| Decimal.ParseInt | src/fast_encrypt/_rsa.py:228 | `int(s)` raises ValueError("invalid literal ...") on failure, and always fails on a blank string |
| Decimal.ParseShow | src/fast_encrypt/_rsa.py:171 | `int(str(v)) == v` for every integer v |
| Decimal.DigitsValueOfDigits | src/fast_encrypt/_rsa.py:171 | the decimal digits of n read back as n |
| Decimal.SignedDigits | src/fast_encrypt/_rsa.py:228 | a run of digits parses to its decimal value |
| Decimal.Negative | src/fast_encrypt/_rsa.py:228 | a minus sign before a digit run parses to the negated value |
| Text.HandleText | src/easyencrypt/_caesars_cipher.py:118-136 | the sequential strip-and-replace normalisation equals stripping, then folding accented Latin letters to their ASCII base letters, case kept |
| Text.Strip | src/easyencrypt/_caesars_cipher.py:119 | `str.strip`: the result has no leading or trailing whitespace, and a stripped string is left as it is |
| Text.NormaliseIsNormal | src/easyencrypt/_caesars_cipher.py:118-136 | normalised text is stripped and contains no foldable accented letter |
| Text.NormaliseIdempotent | src/easyencrypt/_caesars_cipher.py:118-136 | normalising twice is normalising once |
| Text.NormalisePlain | src/easyencrypt/_caesars_cipher.py:118-136 | on text of ASCII characters and the folded accented letters, normalisation leaves no letter outside ASCII |
| Text.FoldSkip | src/easyencrypt/_caesars_cipher.py:132-134 | when an accented capital does not occur in the upper-cased text, its two replacements, which the `in` test skips, would change nothing |
| Text.Search | src/fast_encrypt/_atbash.py:96-102 | the search for a character in the alphabet returns its first index, or None when it is absent |
| Text.FirstIndexUnique | src/fast_encrypt/_atbash.py:96-102 | an index holding the character with no earlier occurrence is the one found |
| Text.SplitJoin | src/fast_encrypt/_rsa.py:226 | splitting a space-join of pieces without spaces gives the pieces back |
| Text.WordsJoin | src/fast_encrypt/_morse_code.py:184 | `str.split()` of a space-join of non-empty pieces without whitespace gives the pieces back |
| Text.DropSpace | src/fast_encrypt/_morse_code.py:123 | `replace(' ', '')` of two space-free words joined by one space is the two words run together |
| Text.ReverseInPlace | src/fast_encrypt/_pipeline.py:148-149 | `list.reverse()` leaves the array holding its old contents backwards |
| Caesar.New | src/easyencrypt/_caesars_cipher.py:57-66 | a shift is accepted exactly when it lies in 1..25; otherwise ValueError with the library's message |
| Caesar.Encrypt | src/easyencrypt/_caesars_cipher.py:91-136 | encryption shifts each letter of the normalised text forward, case kept, other characters copied; it fails with the `TypeError` of `ord` exactly when the normalised text contains 'ß' |
| Caesar.Decrypt | src/easyencrypt/_caesars_cipher.py:161-185 | decryption shifts each letter of the stripped cipher text backward; it fails with the `TypeError` of `ord` exactly when that text contains 'ß' |
| Caesar.EncryptHandled | src/easyencrypt/_caesars_cipher.py:95-112 | the loop of `encrypt` over the normalised text fails at the first 'ß' and otherwise emits each character's encryption |
| Caesar.DecryptHandled | src/easyencrypt/_caesars_cipher.py:165-182 | the loop of `decrypt` over the stripped cipher text fails at the first 'ß' and otherwise emits each character's decryption |
| Caesar.ShiftForward | src/easyencrypt/_caesars_cipher.py:99-108 | one letter's upper case moved shift places forward, wrapping past 'Z', in the letter's case |
| Caesar.ShiftBack | src/easyencrypt/_caesars_cipher.py:169-178 | one letter's upper case moved shift places back, wrapping before 'A', in the letter's case |
| Caesar.AsciiLetteredNoSharpS | src/easyencrypt/_caesars_cipher.py:98-99 | text whose letters are all ASCII has no 'ß', so `ord(char.upper())` cannot fail on it |
| Caesar.EncryptCharFacts | src/easyencrypt/_caesars_cipher.py:97-110 | a non-letter is copied; an ASCII letter stays an ASCII letter of the same case, moved shift places forward mod 26 |
| Caesar.DecryptCharFacts | src/easyencrypt/_caesars_cipher.py:167-180 | a non-letter is copied; an ASCII letter stays an ASCII letter of the same case, moved shift places back mod 26 |
| Caesar.CharRoundTrip | src/easyencrypt/_caesars_cipher.py:91-182 | shifting back undoes shifting forward and the other way round, for ASCII letters and non-letters |
| Caesar.EncryptKeepsShape | src/easyencrypt/_caesars_cipher.py:91-112 | encryption keeps a stripped text stripped and keeps ASCII letters ASCII |
| Caesar.DecryptKeepsShape | src/easyencrypt/_caesars_cipher.py:161-182 | decryption keeps a stripped text stripped and keeps ASCII letters ASCII |
| Caesar.RoundTrip | src/easyencrypt/_caesars_cipher.py:91-185 | decrypt(encrypt(text)) is the normalised text for text whose letters fold to ASCII |
| Caesar.RoundTripReverse | src/easyencrypt/_caesars_cipher.py:91-185 | encrypt(decrypt(c)) is the stripped cipher text for cipher text whose letters are ASCII |
| Caesar.Example | tests/test_caesars_cipher.py:7-23 | with shift 3, "Hello World!" normalises to itself with no 'ß' and encrypts to "Khoor Zruog!", which strips to itself and decrypts back |
| Atbash.CreateSubstitutionTable | src/fast_encrypt/_atbash.py:55-65 | the table maps the i-th letter of the alphabet to the (25-i)-th |
| Atbash.Encrypt | src/fast_encrypt/_atbash.py:90-128 | encryption replaces each ASCII letter of the normalised text by its mirror letter in the same case and copies the rest |
| Atbash.EncryptChar | src/fast_encrypt/_atbash.py:96-102 | the table lookup of one character gives its mirror letter, case kept, or the character itself |
| Atbash.TableLookup | src/fast_encrypt/_atbash.py:96-102 | the upper-cased character is found in the alphabet exactly when it is an ASCII letter, and the table entry found (lower-cased for a lower-case letter) is its Atbash image |
| Atbash.Decrypt | src/fast_encrypt/_atbash.py:130-152 | decryption is encryption |
| Atbash.SubstituteInvolution | src/fast_encrypt/_atbash.py:55-65 | the character map is its own inverse, keeps ASCII letters ASCII in the same case and copies everything else |
| Atbash.SubstituteKeepsFolded | src/fast_encrypt/_atbash.py:110-128 | the image of a character that folding leaves alone is also left alone |
| Atbash.EncryptKeepsNormal | src/fast_encrypt/_atbash.py:90-128 | the encryption of a normalised text is normalised |
| Atbash.EncryptTwice | src/fast_encrypt/_atbash.py:90-152 | decrypting an encryption gives back the normalised text, for every text |
| Atbash.Example | tests/test_atbash.py:7-23 | "Hello World!" and "Svool Dliow!" normalise to themselves and encrypt to each other |
| Substitution.ValidateKey | src/easyencrypt/_substitution.py:61-79 | the key check runs in the library's order and with its messages |
| Substitution.CheckKeyMeaning | src/easyencrypt/_substitution.py:61-79 | the key passes exactly when the raw key has 26 characters and its stripped form is ASCII letters, no two the same ignoring case |
| Substitution.CheckCharsMeaning | src/easyencrypt/_substitution.py:70-79 | the per-character loop passes exactly when every character is an ASCII letter not seen before, ignoring case |
| Substitution.CreateSubstitutionTable | src/easyencrypt/_substitution.py:81-87 | entry i of the table is the upper case of the raw key's i-th character |
| Substitution.New | src/easyencrypt/_substitution.py:56-87 | construction succeeds exactly for valid keys, fails with the validator's error otherwise, and builds the table from the raw key |
| Substitution.ValidKeyPermutation | src/easyencrypt/_substitution.py:61-87 | a valid key without surrounding spaces gives a table that is a permutation of the alphabet |
| Substitution.PermutationOnto | src/easyencrypt/_substitution.py:175-189 | every capital letter occurs in a permutation table, so decryption finds every letter |
| Substitution.UnstrippedKeyBreaksTable | src/easyencrypt/_substitution.py:61-87 | the key " BCDEFGHIJKLMNOPQRSTUVWXYZ" passes validation, its table is not a permutation, and "A" does not survive a round trip |
| Substitution.EncryptOne | src/easyencrypt/_substitution.py:118-124 | the lookup of one character gives the table's letter for it in the same case, or the character itself |
| Substitution.DecryptOne | src/easyencrypt/_substitution.py:181-187 | the reverse lookup gives the alphabet letter at the table's position of the character, in the same case, or the character itself |
| Substitution.Encrypt | src/easyencrypt/_substitution.py:112-150 | encryption maps each character of the normalised text through the table |
| Substitution.Decrypt | src/easyencrypt/_substitution.py:175-192 | decryption maps each character of the stripped cipher text back through the table |
| Substitution.CharRoundTrip | src/easyencrypt/_substitution.py:112-189 | with a permutation table, decrypting an encrypted character gives it back, and encrypting a decrypted ASCII letter or non-letter gives it back |
| Substitution.EncryptKeepsStripped | src/easyencrypt/_substitution.py:112-126 | encryption keeps a stripped text stripped |
| Substitution.DecryptKeepsStripped | src/easyencrypt/_substitution.py:175-189 | decryption keeps a stripped text stripped |
| Substitution.RoundTrip | src/easyencrypt/_substitution.py:112-192 | decrypt(encrypt(text)) is the normalised text for every permutation table |
| Substitution.RoundTripReverse | src/easyencrypt/_substitution.py:112-192 | encrypt(decrypt(c)) is the stripped cipher text when its letters are ASCII |
| Substitution.Example | tests/test_substitution.py:7-27 | the key "POIUYTREWQLKJHGFDSAMNBVCXZ" is accepted, and the table built from it encrypts "Hello World!" to "Eykkg Vgsku!" and decrypts "Eykkg Vgsku!" to "Hello World!" |
| Vigenere.ValidateKey | src/fast_encrypt/_vigenere.py:69-78 | a key passes exactly when it is not empty and every character of its stripped form is an ASCII letter; otherwise the empty-key or the letters-only message |
| Vigenere.CheckLetters | src/fast_encrypt/_vigenere.py:76-78 | the loop passes exactly when every character is an ASCII letter |
| Vigenere.New | src/fast_encrypt/_vigenere.py:66-78 | construction succeeds exactly for valid keys and keeps the stripped, upper-cased key |
| Vigenere.Encrypt | src/fast_encrypt/_vigenere.py:103-146 | encryption of the normalised text shifts the n-th letter forward by the key letter at n mod the key's length; it fails exactly when the key is empty and the text has a letter (modulo by zero) or the text contains 'ß' (the `TypeError` of `ord`), the modulo by zero coming first |
| Vigenere.EncryptLetter | src/fast_encrypt/_vigenere.py:113-116 | one letter is shifted by its key letter, case kept |
| Vigenere.Decrypt | src/fast_encrypt/_vigenere.py:171-193 | decryption of the stripped cipher text shifts the n-th letter back; it fails exactly as encryption does, with the same two errors in the same order |
| Vigenere.EncryptHandled | src/fast_encrypt/_vigenere.py:106-120 | the loop of `encrypt` over the normalised text: modulo by zero at the first letter when the key is empty, else the `TypeError` at the first 'ß', else the shifted text |
| Vigenere.DecryptHandled | src/fast_encrypt/_vigenere.py:174-188 | the loop of `decrypt` over the stripped cipher text, with the same two errors in the same order |
| Vigenere.DecryptLetter | src/fast_encrypt/_vigenere.py:181-184 | one letter is shifted back by its key letter, case kept |
| Vigenere.EncryptAt | src/fast_encrypt/_vigenere.py:109-120 | character i of the encryption is the i-th character shifted by the key letter indexed by the number of letters before it |
| Vigenere.DecryptAt | src/fast_encrypt/_vigenere.py:177-188 | character i of the decryption is the i-th character shifted back by the same key letter |
| Vigenere.ShiftRoundTrip | src/fast_encrypt/_vigenere.py:113-184 | shifting keeps letters ASCII letters of the same case, and shifting back undoes shifting forward for ASCII letters |
| Vigenere.KeepsPattern | src/fast_encrypt/_vigenere.py:103-190 | encryption and decryption keep letters at the same positions and copy every non-letter |
| Vigenere.DecryptEncrypted | src/fast_encrypt/_vigenere.py:103-190 | decrypting an encryption gives the text back when its letters are ASCII |
| Vigenere.EncryptedStripped | src/fast_encrypt/_vigenere.py:103-122 | the encryption of a stripped text is stripped |
| Vigenere.RoundTrip | src/fast_encrypt/_vigenere.py:103-193 | decrypt(encrypt(text)) is the normalised text for a non-empty key and text whose letters fold to ASCII |
| Vigenere.BlankKeyAccepted | src/fast_encrypt/_vigenere.py:69-78 | the key "   " passes validation but becomes the empty key, and a text with a letter then hits the modulo by zero |
| Vigenere.Example | tests/test_vigenere.py:7-27 | with key "KEY", "Hello World!" normalises to itself with no 'ß' and encrypts to "Rijvs Uyvjn!", which strips to itself and decrypts back |
| Homophonic.InitialPool | src/fast_encrypt/_homophonic_substitution.py:73 | the pool is the 94 characters chr(33) .. chr(126) |
| Homophonic.Remove | src/fast_encrypt/_homophonic_substitution.py:84 | removing a drawn character leaves the other characters of the pool, still distinct |
| Homophonic.CreateSubstitutionTable | src/fast_encrypt/_homophonic_substitution.py:72-89 | for any draws, the table has 26 rows of 3 printable characters and no character appears twice in it |
| Homophonic.AddRow | src/fast_encrypt/_homophonic_substitution.py:79-87 | a finished row of three distinct draws keeps the table's characters distinct and out of the pool (loop invariant) |
| Homophonic.HandleText | src/fast_encrypt/_homophonic_substitution.py:143-169 | preparation normalises the text and puts '\0' before every character that is neither a space nor an ASCII letter |
| Homophonic.EscapeLoop | src/fast_encrypt/_homophonic_substitution.py:161-167 | the escaping loop produces the escaped text |
| Homophonic.UpperInAlphabet | src/fast_encrypt/_homophonic_substitution.py:164 | the upper case of a character is in the alphabet exactly when it is an ASCII letter |
| Homophonic.Encrypt | src/fast_encrypt/_homophonic_substitution.py:121-137 | each ASCII letter of the prepared text becomes one of its letter's three homophones, chosen by the picks; other characters are copied |
| Homophonic.EncryptOne | src/fast_encrypt/_homophonic_substitution.py:129-135 | one character becomes the picked homophone of its upper-cased letter, or itself |
| Homophonic.Decrypt | src/fast_encrypt/_homophonic_substitution.py:194-221 | decryption runs the escape-aware state machine over the stripped cipher text |
| Homophonic.DecryptOne | src/fast_encrypt/_homophonic_substitution.py:202-216 | one character either ends an escape (copied), starts one, is a homophone (replaced by its letter) or is copied |
| Homophonic.OwnerOfHomophone | src/fast_encrypt/_homophonic_substitution.py:203-211 | in a table built by the constructor, every homophone is found in its own letter's row |
| Homophonic.OwnerOfOther | src/fast_encrypt/_homophonic_substitution.py:203-216 | a character outside '!'..'~' belongs to no row |
| Homophonic.RunEncrypted | src/fast_encrypt/_homophonic_substitution.py:121-218 | decrypting the encryption of escaped text gives the text with its letters upper-cased, ending outside an escape |
| Homophonic.EncryptedStripped | src/fast_encrypt/_homophonic_substitution.py:121-169 | the encryption of a prepared stripped text is stripped |
| Homophonic.RoundTrip | src/fast_encrypt/_homophonic_substitution.py:121-221 | for every table the constructor can build and every choice of homophones, decrypt(encrypt(text)) is the normalised text with its letters upper-cased |
| Morse.TableShape | src/fast_encrypt/_morse_code.py:46-83 | the table has 36 entries, A..Z, then 1..9, then 0, each a code of one to five dots and dashes |
| Morse.CodesDistinct | src/fast_encrypt/_morse_code.py:46-83 | no two entries of the table share a code |
| Morse.HandleText | src/fast_encrypt/_morse_code.py:122-155 | preparation upper-cases, folds accents, keeps only table characters and joins them with single spaces |
| Morse.FoldAccents | src/fast_encrypt/_morse_code.py:125-137 | the replacement loop folds each accented capital to its base letter, reading the mis-encoded table as the Latin-1 capitals it stands for |
| Morse.Pop | src/fast_encrypt/_morse_code.py:139-151 | the pop loop keeps exactly the characters that are in the table, in order |
| Morse.Encrypt | src/fast_encrypt/_morse_code.py:108-116 | encryption gives the codes of the kept letters joined by single spaces |
| Morse.ReplaceCodes | src/fast_encrypt/_morse_code.py:112-114 | the replacement loop over the table replaces every table character by its code |
| Morse.TranslateJoin | src/fast_encrypt/_morse_code.py:110-116 | replacing in the space-joined letters gives the space-joined codes |
| Morse.RewriteTable | src/fast_encrypt/_morse_code.py:112-114 | the table's replacements turn a table character into its code and leave a space alone |
| Morse.ValidateCipherText | src/fast_encrypt/_morse_code.py:195-203 | a cipher text passes exactly when every whitespace-separated word is a code of the table; otherwise ValueError with the library's message |
| Morse.CheckWords | src/fast_encrypt/_morse_code.py:201-203 | the word loop passes exactly when every word is a table code |
| Morse.IsValue | src/fast_encrypt/_morse_code.py:202 | the membership test among the table's codes |
| Morse.Decrypt | src/fast_encrypt/_morse_code.py:180-206 | decryption succeeds exactly when every word is a table code and then gives the concatenation of the words' characters |
| Morse.DecodeAll | src/fast_encrypt/_morse_code.py:186-189 | the nested loop replaces every code word by its character |
| Morse.DecodeSlot | src/fast_encrypt/_morse_code.py:187-189 | the inner loop over the table replaces one word by its character |
| Morse.DecodeCode | src/fast_encrypt/_morse_code.py:187-189 | the code of a table character decodes to that character |
| Morse.RoundTrip | src/fast_encrypt/_morse_code.py:108-206 | the encryption of any text is valid cipher text and decrypts to its kept upper-cased letters |
| Morse.JoinStripped | src/fast_encrypt/_morse_code.py:108-116 | the encryption has no surrounding whitespace |
| Morse.LettersIdempotent | src/fast_encrypt/_morse_code.py:122-155 | preparing text made only of table characters leaves it as it is |
| Morse.Example | tests/test_morse_code.py:7-27 | "Hello World!" is prepared to "HELLOWORLD" (stripped, upper-cased, space and '!' dropped), encrypts to ".... . .-.. .-.. --- .-- --- .-. .-.. -..", and that decrypts to "HELLOWORLD" |
| Pipeline.ValidateSteps | src/fast_encrypt/_pipeline.py:59-88 | the steps pass exactly when they have at most one Morse and at most one homophonic step, Morse only last, and not both; the "only one MorseCode" error is raised exactly when the Morse count reaches two before the homophonic count does, and the "only one HomophonicSubstitution" error exactly in the mirror case |
| Pipeline.MorseFirst | src/fast_encrypt/_pipeline.py:66-80 | once the Morse count reaches two while the homophonic count is at most one, the homophonic count cannot have reached two first |
| Pipeline.HomophonicFirst | src/fast_encrypt/_pipeline.py:66-80 | the mirror of `MorseFirst` |
| Pipeline.CountMorsePositive | src/fast_encrypt/_pipeline.py:82 | the Morse count is positive exactly when some step is Morse |
| Pipeline.New | src/fast_encrypt/_pipeline.py:56-88 | construction succeeds exactly for valid steps and keeps them; otherwise it fails with the `_validate_steps` error: the count message of whichever count reaches two first, then the Morse-position message, then the mixed-kinds message |
| Pipeline.UnstrippedSubstitutionStep | src/easyencrypt/_substitution.py:61-87 | the accepted key " BCDEFGHIJKLMNOPQRSTUVWXYZ" gives a step the pipeline runs, which is not reversible: "A" encrypts to a space that decryption strips away |
| Pipeline.ApplyStep | src/fast_encrypt/_pipeline.py:117-119 | one step runs the cipher's encrypt or decrypt method |
| Pipeline.Encrypt | src/fast_encrypt/_pipeline.py:113-121 | encryption is the empty string for no steps, otherwise the steps chained in order, stopping at the first error |
| Pipeline.Decrypt | src/fast_encrypt/_pipeline.py:146-157 | decryption is the empty string for no steps, otherwise the steps' decryptions chained from the last step to the first |
| Pipeline.RunSteps | src/fast_encrypt/_pipeline.py:115-119 | the step loop computes the chain |
| Pipeline.ChainAppend | src/fast_encrypt/_pipeline.py:115-119 | chaining a + b is chaining b on the result of a, an error of a stopping everything |
| Pipeline.ChainStops | src/fast_encrypt/_pipeline.py:115-119 | an error part way through is the result of the whole chain |
| Pipeline.StepRoundTrip | src/fast_encrypt/_pipeline.py:117-155 | for Atbash, Caesar, Vigenère with a non-empty key and substitution with a permutation table, a step's decrypt undoes its encrypt on clean text, which stays clean |
| Pipeline.ChainRoundTrip | src/fast_encrypt/_pipeline.py:113-157 | decrypting through the reversed steps undoes encrypting through the steps, on clean text |
| Pipeline.ChainNormalises | src/fast_encrypt/_pipeline.py:113-121 | the chain gives the same result on a text and on its normalisation |
| Pipeline.NormalisesFirst | src/fast_encrypt/_pipeline.py:117-119 | a reversible step sees its input only through its normalisation: texts that normalise alike give the same result |
| Pipeline.RoundTrip | src/fast_encrypt/_pipeline.py:113-157 | for a non-empty pipeline of these reversible steps, decrypt(encrypt(text)) is the normalised text |
| PipelineExample.ExampleEncrypt | tests/test_pipeline.py:7-16 | Atbash, Caesar(3), Morse encrypts "Hello World!" to the documented Morse text |
| PipelineExample.ExampleDecrypt | tests/test_pipeline.py:18-27 | the same pipeline decrypts that Morse text to "HELLOWORLD" |

## Left out

- Run-time type checks (`isinstance` on the key tuple and its items, texts, shifts and steps) and the `ValueError`s they raise: Dafny's types rule those inputs out. The length of an RSA key tuple is checked (`Rsa.ValidateKey`).
- Python's `random` and `secrets` algorithms: random numbers are the stream of the `Random` class or the `draws`/`picks` parameters, so no distribution is modelled.
- Rsa.GeneratePrimeNumber: the source resamples forever; the model draws at most `fuel` candidates and returns None when the fuel runs out.
- Rsa.GenerateKeypair: the same fuel bound covers the prime search and the resampling of e; it proves the key relation but not that p and q are prime, because the Fermat test also accepts Carmichael numbers and, with unlucky draws, the start value 4.
- Rsa.RoundTrip: stated for distinct primes p and q only, because the source can, with negligible probability, draw the same prime twice or accept a composite, and then the round trip can fail.
- Decimal.ParseInt: only ASCII digits, signs, surrounding whitespace and underscores between digits are accepted; non-ASCII Unicode digits, the 4300-digit limit and `repr` escaping of the offending string in the message are not modelled.
- Rsa.Chr: code points in the surrogate range are accepted by Python's `chr` but are not Dafny characters, so they fail here.
- Case mapping above U+00FF is not modelled: such characters are case-less non-letters (see the character model above).
- Pipeline.RoundTrip: stated for pipelines of Atbash, Caesar, Vigenère and substitution steps; Morse and homophonic steps upper-case and drop characters, so their round trips are the per-cipher `Morse.RoundTrip` and `Homophonic.RoundTrip`.
- The `SimpleEncryptor` base class is not part of this model; the pipeline's steps are a datatype with one case per cipher.
