# Caesar cipher toolkit, modelled in Dafny

A model of the computational core of `Caesar_Cipher2.py`:

- the **shift transform** `caesar_shift`: every ASCII letter is rotated by `shift mod 26` places within its own case alphabet and every other character is copied through;
- **`encrypt` / `decrypt`**: guarded wrappers that refuse a key outside 1..25 and otherwise shift by `+key` or `-key`;
- the **letter tally** `letter_counts_only` (a counter of the upper-cased letters, modelled as a `multiset<char>`) and the **common-letters score** `etaoin_score`, kept as an exact fraction (letters in `ETAOINSHRDLU`) / (letters);
- the **brute-force analyser** `analyze`: all 26 keys are tried in order 0..25, each candidate is `caesar_shift(ciphertext, -key)` with its score, and the list is sorted stably by descending score; the best guess is its head.

Modules, one per component: `Alphabet` (`alphabet.dfy`, ASCII letter classes), `Shift` (`shift.dfy`), `Cipher` (`cipher.dfy`), `Tally` (`tally.dfy`) and `Analysis` (`analysis.dfy`).

`caesar_shift` builds its result in a loop, so it is the method `Shift.CaesarShift`, proved against the function `Shift.Shifted`; the functions and lemmas use `Shifted`. `analyze` appends to a list in a loop and then sorts it, so it is the method `Analysis.Analyze`: its loop calls `CaesarShift` for keys 0..25 and is proved to build exactly the list `Analysis.Candidates` (the enumeration stated over `Shifted`), which it then passes to the sort method `SortByScoreDescending`. `encrypt`, `decrypt`, `letter_counts_only` and `etaoin_score` are expressions in the source and are functions here.

The score used by `analyze` (`combined_score`, a floating-point sum) is a parameter `score: string -> real`. Everything proved about `Analyze` holds for every scoring function.

## Model

| member | source | states |
|---|---|---|
| `Shift.Shifted` | Caesar_Cipher2.py:36-46 | the value `caesar_shift` returns: the same length as the input; at every index the result is upper-case exactly when the input is, and lower-case exactly when the input is; every non-letter is unchanged (the letter offsets are given by `ShiftCharSpec`, the inverse by `ShiftInverse`) |
| `Shift.CaesarShift` | Caesar_Cipher2.py:36-46 | the loop returns `Shifted(text, shift)`: same length; every non-letter unchanged at its index; an upper-case letter stays upper-case with offset `(offset + shift) mod 26` from 'A'; the same for lower-case from 'a' |
| `Shift.ShiftCharSpec` | Caesar_Cipher2.py:37-45 | one character: the case is kept in both directions, a letter's offset moves by `shift mod 26`, and a non-letter is returned as is |
| `Shift.ShiftCharCompose` | Caesar_Cipher2.py:37-43 | shifting a character by `a` and then by `b` equals shifting it by `a + b` |
| `Shift.ShiftCharZero` | Caesar_Cipher2.py:37-45 | a shift of 0 leaves every character unchanged |
| `Shift.ShiftNormalised` | Caesar_Cipher2.py:37 | the shift is normalised first: shifting by `k` equals shifting by `k mod 26` for every integer `k` (so -3 acts as 23) |
| `Shift.ShiftZero` | Caesar_Cipher2.py:36-46 | a shift of 0 returns the text unchanged |
| `Shift.ShiftCompose` | Caesar_Cipher2.py:36-46 | two shifts in a row compose: `Shifted(Shifted(t, a), b) == Shifted(t, a + b)` |
| `Shift.ShiftInverse` | Caesar_Cipher2.py:36-46 | for every text and every integer `k`, shifting by `k` and then by `-k` restores the text |
| `Cipher.Encrypt` | Caesar_Cipher2.py:49-52 | fails, with the source's message, exactly when the key is below 1 or above 25; otherwise the result is the text shifted by `+key` |
| `Cipher.Decrypt` | Caesar_Cipher2.py:55-58 | fails, with the source's message, exactly when the key is below 1 or above 25; otherwise the result is the text shifted by `-key` |
| `Cipher.DecryptEncrypt` | Caesar_Cipher2.py:49-58 | for every key in 1..25, encryption succeeds and decrypting its result gives back the plaintext |
| `Cipher.EncryptDecrypt` | Caesar_Cipher2.py:49-58 | for every key in 1..25, decryption succeeds and encrypting its result gives back the ciphertext |
| `Cipher.EncryptInjective` | Caesar_Cipher2.py:49-52 | under one valid key, two plaintexts with the same ciphertext are equal |
| `Cipher.CipherExamples` | Caesar_Cipher2.py:49-58 | `encrypt("ABC",1) == "BCD"`, `decrypt("BCD",1) == "ABC"`, `encrypt("xyz",2) == "zab"`, punctuation passes through, and keys 0, 26, -1 and 100 are refused by both operations |
| `Tally.LetterCounts` | Caesar_Cipher2.py:61-63 | the counter's total equals the number of positions of the text that hold a letter (the count of each letter is given by `LetterCountsOf`) |
| `Tally.LettersOfText` | Caesar_Cipher2.py:62 | the filtered list of upper-cased letters has one entry per position of the text that holds a letter |
| `Tally.LetterCountsOf` | Caesar_Cipher2.py:61-63 | the tally counts each upper-case letter once per occurrence of it in either case, and counts nothing else |
| `Tally.CommonTotal` | Caesar_Cipher2.py:84 | the sum of the tally over `ETAOINSHRDLU` equals the number of letters of the text whose upper-case form is one of those twelve |
| `Tally.CommonWithinAlpha` | Caesar_Cipher2.py:79-85 | there are never more common letters than letters |
| `Tally.EtaoinScore` | Caesar_Cipher2.py:79-85 | the score is a fraction in [0, 1] with a positive denominator; it is 0 when the text has no letters, and otherwise (common letters) / (letters) |
| `Tally.SumCountsSingle` | Caesar_Cipher2.py:84 | over distinct letters, one character contributes 1 to the sum if it is among them and 0 otherwise |
| `Tally.EtaoinDistinct` | Caesar_Cipher2.py:33 | the twelve letters of `ETAOIN` are pairwise different, so the sum at line 84 counts no letter twice |
| `Tally.HelloWorldTally` | Caesar_Cipher2.py:61-63 | the tally of `"Hello, World! 123"` is H:1 E:1 L:3 O:2 W:1 R:1 D:1, ten letters in all |
| `Tally.HelloWorldScore` | Caesar_Cipher2.py:79-85 | the score of `"Hello, World! 123"` is 9/10 (W is the only letter outside the set) |
| `Analysis.InsertByScore` | Caesar_Cipher2.py:101 | one step of the stable descending sort: the result holds the old list plus the new candidate, scores stay non-increasing, and the ranking is kept when the new candidate's key is larger than every placed key |
| `Analysis.SortByScoreDescending` | Caesar_Cipher2.py:101 | the sort returns a permutation of its input with non-increasing scores; when the input keys ascend, equal scores come out in ascending key order |
| `Analysis.Analyze` | Caesar_Cipher2.py:94-112 | exactly 26 results, a permutation of the candidates for keys 0..25; each key appears once; each text is the ciphertext shifted by `-key` and each score is that text's score; the list is ranked by descending score with ties in ascending key order; the best guess is the head, with the highest score and the lowest key among equal scores |
| `Analysis.RankingUnique` | Caesar_Cipher2.py:101 | two ranked orders of the same candidates are equal, so any stable descending sort of the enumeration yields exactly the list `Analyze` returns |
| `Analysis.RankedHead` | Caesar_Cipher2.py:101 | two ranked orders of the same candidates start with the same candidate |
| `Analysis.CandidateByKey` | Caesar_Cipher2.py:96-99 | each member of the enumeration is the one listed at the index equal to its key |
| `Analysis.Candidates` | Caesar_Cipher2.py:95-99 | the list built before the sort has 26 entries whose keys are 0 to 25, in ascending order, with the entry at index `k` having key `k` |
| `Analysis.RankedEnumeration` | Caesar_Cipher2.py:94-101 | any ranked reordering of the 26 candidates has 26 entries, each equal to the candidate for its own key, every key 0..25 present and no key twice |
| `Analysis.CandidatesReencrypt` | Caesar_Cipher2.py:96-97 | shifting each candidate's text forward by its key gives back the ciphertext |
| `Analysis.CandidatesContainPlaintext` | Caesar_Cipher2.py:96-97 | for any scoring, when the ciphertext is the encryption of a plaintext under key `k`, the candidate for key `k` is that plaintext |

## Left out

- Letters are the ASCII letters `A`-`Z` and `a`-`z` only. The source tests letters with Python's Unicode-aware `isalpha`/`isupper`, so a non-ASCII letter such as `é` is pushed through the `a`-`z` arithmetic, comes out as an ASCII letter, and does not survive a round trip. The model copies such characters through unchanged, as other non-letters are. On non-ASCII letters the model therefore does not follow the code; every property it proves is about ASCII letters.
- `chi_squared_score` and `combined_score` (Caesar_Cipher2.py:66-76, 88-91): floating-point sums and divisions, with `float('-inf')` when there are no letters. `Analyze` takes the score as a parameter `string -> real` instead, so its results hold for any scoring. Because a real cannot be negative infinity, the model covers the source's ordering only for scores that are ordinary values.
- The `ENGLISH_FREQ` table (Caesar_Cipher2.py:24-31): it feeds only the floating-point chi-squared score.
- The claim that `analyze` finds the right key for long English text: it is statistical and not a guarantee of the code. The model proves only that the right plaintext is always among the 26 candidates (`CandidatesContainPlaintext`).
- All printing in `analyze` (Caesar_Cipher2.py:103-115), including the `top_n` and `show_all` display branches: they do not change the returned list.
- `build_arg_parser`, `interactive_menu` and `main` (Caesar_Cipher2.py:119-215): argument parsing, console input and output, and process exit.
- Tally.EtaoinScore: with no letters the source returns `0.0`. The model returns the fraction 0/1 instead of (0, 0), so that the denominator is always positive.
- Analysis.SortByScoreDescending: the source calls Python's built-in stable `list.sort`. The model sorts by stable insertion instead. `RankingUnique` shows that the outcome is the same list.
- Cipher.Encrypt and Cipher.Decrypt: the `ValueError` the source raises is modelled as an `Err` value carrying the same message.
