# Verified model of five school-work programs

This project models, in Dafny, the core of five small programs and proves
what each of them computes.

- **RBAC engine** (`rbac_spec.dfy`, module `RbacSpec`; `rbac.dfy`, module
  `Rbac`). A role-based access-control engine. It loads five inputs:
  - a role hierarchy: ascendant/descendant lines, where no ascendant may
    appear twice;
  - the resource objects: no duplicates allowed;
  - permission lines: role, label, role-or-object;
  - separation-of-duty constraints: a bound `n >= 2` and a role set;
  - user-role lines.

  It builds a role-object matrix of permission labels. Every role controls
  itself; a descendant controls and owns each of its ascendants; a
  permission granted to a role is granted to all of its descendants. It
  builds a user-role matrix and rejects a line that repeats a user,
  breaks a constraint or lists a role the role table lacks. With `n == 2`
  a user may hold at most one role of the set. With `n > 2` at most `n`
  users may hold each role of the set. It
  then answers queries: a user's full listing, a user's labels on one
  object, or an authorized/rejected decision. `RbacSpec` holds the tables
  as values and the functions that define what each operation computes.
  `Rbac.Engine` is the engine itself, a class whose fields are the
  source's static tables, and its methods update them.
- **TEA** (`tea.dfy`, module `Tea`). A two-round Feistel cipher in the
  style of the Tiny Encryption Algorithm, on 32-bit halves kept in
  three-entry block arrays. Encryption fills indices 1 and 2 from index 0;
  decryption fills indices 1 and 0 from index 2.
- **Sudoku validator** (`sudoku.dfy`, module `Sudoku`). It checks the 9
  columns, 9 rows and 9 subgrids of a 9×9 grid. Each section must hold
  every digit 1..9 exactly once.
- **Language** (`language.dfy`, module `Languages`). A finite set of
  strings. It supports membership, insertion that reports a change, and
  concatenation of two languages.
- **SumsToN** (`sums.dfy`, module `SumsToN`). A recursive generator of all
  partitions of `n` into non-decreasing positive parts.

## Model

| member | source | states |
|---|---|---|
| Rbac.Engine.constructor | computer-and-network-security/rbac/RBAC.java:21-39 | every table starts empty |
| Rbac.Engine.ParseRoleHierarchy | computer-and-network-security/rbac/RBAC.java:86-166 | the load succeeds iff no ascendant occurs on two lines; on success the hierarchy is the line-by-line map and the role table is the given copy of the set of roles named; otherwise the error names the first line that repeats an ascendant, the map holds the lines before it, and the role table is unchanged |
| RbacSpec.HierarchyLists | computer-and-network-security/rbac/RBAC.java:141-150 | a role has an entry iff some line names it as descendant; its entry lists every ascendant such lines give it, in line order, so none is lost |
| RbacSpec.HierarchyRoles | computer-and-network-security/rbac/RBAC.java:104-110 | every role in the hierarchy (key or ascendant) is a role named on some line |
| Rbac.Engine.ParseResourceObjects | computer-and-network-security/rbac/RBAC.java:201-248 | the load succeeds iff no object repeats; on success the object table is the given copy of the set; otherwise the error names the object at the first repeat and the table is unchanged |
| RbacSpec.IndexOf | computer-and-network-security/rbac/RBAC.java:430 | `indexOf` returns -1 iff the name is absent, and otherwise the first position holding it |
| RbacSpec.ColumnIndex | computer-and-network-security/rbac/RBAC.java:431-432 | a role selects its own column; any other object selects its column after the roles; a name that is neither selects the last role's column |
| RbacSpec.LabelOfColumn | computer-and-network-security/rbac/RBAC.java:852-853 | a known role or object selects a column whose printed heading is that name |
| Rbac.Engine.CreateRoleObjectMatrix | computer-and-network-security/rbac/RBAC.java:253-278 | the matrix gets one row per role and one column per role and object, and every cell is empty |
| RbacSpec.EmptyMatrix | computer-and-network-security/rbac/RBAC.java:255-276 | the matrix built has the given shape and only empty cells |
| Rbac.Engine.GetDescendants | computer-and-network-security/rbac/RBAC.java:400-419 | a role is in the returned list iff it is a transitive descendant of the argument (every key whose ascendants name it, and their descendants) |
| RbacSpec.DescendantsBelow | computer-and-network-security/rbac/RBAC.java:400-419 | in an acyclic hierarchy a descendant lies strictly below its ascendant, so no role is its own descendant |
| RbacSpec.DescendantsTransitive | computer-and-network-security/rbac/RBAC.java:404-413 | a descendant of a descendant is a descendant |
| RbacSpec.DescendantsAreRoles | computer-and-network-security/rbac/RBAC.java:404-413 | every descendant is in the role table |
| Rbac.Engine.AddPermission | computer-and-network-security/rbac/RBAC.java:428-455 | the matrix becomes the grant of the label on the cell (role's row, target's column) |
| RbacSpec.Granted | computer-and-network-security/rbac/RBAC.java:436-450 | a grant appends the label to its cell unless it is already there; the shape and every other cell are unchanged |
| RbacSpec.GrantedIdempotent | computer-and-network-security/rbac/RBAC.java:438-450 | granting twice equals granting once, and a cell with no repeated label keeps none |
| RbacSpec.AddLabelsFacts | computer-and-network-security/rbac/RBAC.java:438-450 | granting labels one after another keeps the cell's old labels in place as a prefix, adds exactly the granted ones, and repeats none |
| RbacSpec.AddLabelsAppend | computer-and-network-security/rbac/RBAC.java:436-450 | granting `ps` and then `qs` equals granting `ps + qs` |
| RbacSpec.AddLabelsFresh | computer-and-network-security/rbac/RBAC.java:438-441 | labels that are new and not repeated are appended in grant order |
| RbacSpec.GainsGranted | computer-and-network-security/rbac/RBAC.java:428-455 | one more grant on a column extends, by that label, the labels its row has gained there, and changes nothing else |
| Rbac.Engine.AddDefaultPermissions | computer-and-network-security/rbac/RBAC.java:460-480 | every role-column cell gets its default labels appended after its old ones, in grant order (a role's own cell "control"; a descendant's cell on its ascendant "control" then "own"); object columns are untouched; no old label moves or is repeated, and a label is present iff it was before or it is such a default |
| Rbac.Engine.GrantDefaults | computer-and-network-security/rbac/RBAC.java:465-478 | one iteration over role `r` appends "control" to the role's own cell and "control", "own" to each descendant's cell of column `r`, and changes nothing else |
| Rbac.Engine.GrantDescendantsDefaults | computer-and-network-security/rbac/RBAC.java:470-476 | appends "control" then "own" on the role's column to the cell of each of its descendants, and changes nothing else |
| Rbac.Engine.GrantDefaultsTo | computer-and-network-security/rbac/RBAC.java:473-474 | one descendant's cell on the column gets "control" then "own" appended, and nothing else changes |
| RbacSpec.DefaultLabelsMembers | computer-and-network-security/rbac/RBAC.java:465-478 | the default labels of a cell are exactly "control" of a role on itself and "control" and "own" of a descendant on its ascendant, with no repeat |
| RbacSpec.DefaultsOneMore | computer-and-network-security/rbac/RBAC.java:465-478 | handling the role of column `r` extends the defaults granted to columns below `r` by exactly that column's defaults |
| RbacSpec.DefaultsFacts | computer-and-network-security/rbac/RBAC.java:460-480 | once every role column has its defaults, old labels stay in place, a label is present iff it was before or it is a default, and a cell without repeats keeps none |
| RbacSpec.DefaultsFromEmpty | computer-and-network-security/rbac/RBAC.java:460-480 | from an empty matrix, a role's own cell reads ["control"] and a descendant's cell on its ascendant reads ["control", "own"] |
| Rbac.Engine.ParsePermissions | computer-and-network-security/rbac/RBAC.java:487-518 | every cell gets appended, after its old labels and in line order, the label of each line whose target selects its column and whose role is the cell's role or one of its ascendants; no old label moves or is repeated, and a label is present iff it was before or some line grants it |
| Rbac.Engine.GrantPermission | computer-and-network-security/rbac/RBAC.java:503-509 | one line appends its label on its target's column to the cell of its role and of each of that role's descendants, and changes nothing else |
| Rbac.Engine.GrantDescendantsPermission | computer-and-network-security/rbac/RBAC.java:505-509 | appends the label on the target's column to the cell of each descendant, and changes nothing else |
| Rbac.Engine.GrantPermissionTo | computer-and-network-security/rbac/RBAC.java:507 | one descendant's cell on the target's column gets the label appended, and nothing else changes |
| RbacSpec.PermittedOneMore | computer-and-network-security/rbac/RBAC.java:503-509 | one more line grants a label on a cell iff an earlier line does, or the line gives that label on its target's column to the cell's role or one of its ascendants |
| RbacSpec.PermittedInherited | computer-and-network-security/rbac/RBAC.java:503-509 | a label granted to a role is granted to every descendant of that role |
| RbacSpec.PermittedLabelsMembers | computer-and-network-security/rbac/RBAC.java:487-518 | the labels the lines grant on a cell, in line order, are exactly the labels some line grants there |
| RbacSpec.PermissionsOneMore | computer-and-network-security/rbac/RBAC.java:503-509 | one more line appends its label, after those of the earlier lines, to the cells it grants |
| RbacSpec.PermissionsFacts | computer-and-network-security/rbac/RBAC.java:487-518 | after all lines, old labels stay in place, a label is present iff it was before or some line grants it, and a cell without repeats keeps none |
| Rbac.Engine.ParseConstraints | computer-and-network-security/rbac/RBAC.java:525-571 | the load succeeds iff every bound is at least 2, and then gives the line-by-line map; otherwise the error names the first line with a bound below 2, and the map holds the lines before it |
| RbacSpec.ConstraintsLastWins | computer-and-network-security/rbac/RBAC.java:563 | a bound has an entry iff some line gives it, and the entry is the role set of the last such line |
| Rbac.CountMembers | computer-and-network-security/rbac/RBAC.java:675-681 | counts the roles on the line that belong to the constraint's set |
| Rbac.CountHolders | computer-and-network-security/rbac/RBAC.java:689-697 | counts the earlier users holding the role |
| RbacSpec.CountInAboveOne | computer-and-network-security/rbac/RBAC.java:673-685 | the count exceeds 1 iff two of the line's entries are in the set |
| RbacSpec.HoldersCount | computer-and-network-security/rbac/RBAC.java:689-699 | the holder count is the number of earlier rows that mark the role |
| Rbac.Engine.RoleBreaksConstraint | computer-and-network-security/rbac/RBAC.java:665-730 | reports a violation iff some constraint naming the role is broken: if n == 2, the line holds more than one role of the set; otherwise the user plus the earlier holders of the role exceed n |
| Rbac.Engine.UnknownRoleCheck | computer-and-network-security/rbac/RBAC.java:661-734 | for a role the role table lacks (index -1), the reason the line stops: a violation only if some constraint naming the role breaks (n == 2 with two members on the line, or the user alone above n with no earlier row); an exception if some constraint n != 2 names it and an earlier row exists to read at -1, or if no constraint breaks and the role is marked at -1 |
| Rbac.Engine.UserRow | computer-and-network-security/rbac/RBAC.java:657-736 | the line stops iff some listed role stops it (unknown, or breaking a constraint), and then the reason is the one the first such role in line order gives; otherwise returns the row marking exactly the listed roles |
| RbacSpec.Statuses | computer-and-network-security/rbac/RBAC.java:657-734 | a user's row marks exactly the roles the line lists |
| RbacSpec.RowsOf | computer-and-network-security/rbac/RBAC.java:738 | one row per accepted line, in line order |
| Rbac.Engine.ParseUserRoles | computer-and-network-security/rbac/RBAC.java:613-751 | the load succeeds iff every line is accepted (new user, every role known and breaking no constraint) given the lines before it; on success the matrix has one row per line; otherwise the outcome names the first rejected line and its reason (repeated user, violated constraint, or the exception of an unknown role, as the first stopping role gives it), the matrix holds the rows before it, and the user table is unchanged. On success the user table is in line order, which is the corrected behaviour of the first finding below |
| Rbac.Engine.CheckUserLine | computer-and-network-security/rbac/RBAC.java:632-736 | one line is either rejected at its position (repeated user first, else the reason of its first stopping role) or accepted with the row of its roles |
| RbacSpec.AcceptedOneMore | computer-and-network-security/rbac/RBAC.java:738-740 | an accepted line extends the accepted prefix by its user and its row |
| RbacSpec.RejectedNotAccepted | computer-and-network-security/rbac/RBAC.java:632-736 | a line the load stops at is not accepted, so the whole file is not |
| RbacSpec.RepeatedUserBeforeUnknownRole | computer-and-network-security/rbac/RBAC.java:632-661 | the user check runs before the roles: a repeated user is reported even when its line lists an unknown role |
| RbacSpec.BrokenConstraintBeforeUnknownRole | computer-and-network-security/rbac/RBAC.java:659-730 | roles are checked in line order: a constraint broken by the first roles stops the line before a later unknown role is reached |
| RbacSpec.UnknownRoleThrows | computer-and-network-security/rbac/RBAC.java:733-734 | with no constraint to try, an unknown role ends in the exception of marking index -1, not in a violation |
| RbacSpec.RowForLineOrder | computer-and-network-security/rbac/RBAC.java:738-747 | with the user table in line order, every user's queries read the row built from that user's own line |
| Rbac.Engine.HasUserObjectPermission | computer-and-network-security/rbac/RBAC.java:927-952 | true iff some role marked for the user holds the label in the column selected for the object |
| Rbac.Engine.HasUserAnyObjectPermission | computer-and-network-security/rbac/RBAC.java:975-1007 | true iff some role marked for the user holds the label on some role or object; the source has no such operation (it is the corrected half of the second finding below) |
| Rbac.Engine.UserPermissions | computer-and-network-security/rbac/RBAC.java:835-874 | returns, for each role marked for the user in order, each non-empty cell with its column heading |
| RbacSpec.ListingMembers | computer-and-network-security/rbac/RBAC.java:835-874 | an entry is listed iff some role marked for the user has that non-empty cell under that heading |
| RbacSpec.ListingAuthorizedOnAny | computer-and-network-security/rbac/RBAC.java:835-874 | a label appears in the full listing iff the user holds it on some role or object |
| Rbac.Engine.UserObjectPermissions | computer-and-network-security/rbac/RBAC.java:882-917 | returns the non-empty cells of the object's column for the roles marked for the user, in role order |
| RbacSpec.ObjectListingMembers | computer-and-network-security/rbac/RBAC.java:882-917 | a label appears in the object listing iff some role marked for the user holds it in that column |
| RbacSpec.ObjectListingAuthorized | computer-and-network-security/rbac/RBAC.java:882-952 | a label appears in the object listing iff the permission check authorizes it on that object |
| Rbac.Engine.Query | computer-and-network-security/rbac/RBAC.java:957-1027 | an empty or unknown user is rejected; a non-empty object that is neither object nor role is rejected; with both object and label empty the full listing is returned; with only the label empty, the object listing; with a label and an object, the decision on that object; with a label and no object, the decision on any object, which is the corrected behaviour of the second finding below |
| RbacSpec.HashSetUserOrderMisreadsRows | computer-and-network-security/rbac/RBAC.java:747 | with the user table copied from a HashSet ("Bob" before "Alice"), Alice's queries read Bob's row |
| RbacSpec.EmptyObjectQueryReadsLastRoleColumn | computer-and-network-security/rbac/RBAC.java:975-999 | an empty object selects the last role's column, so a user holding "read" on "file" is rejected although it holds "read" on some object |
| Tea.AdditionMod2To32 | computer-and-network-security/tea-cryptography/TEA_Encryption.java:176-178 | the sum is a 32-bit word congruent to a + b modulo 2^32, which fixes it as (a + b) mod 2^32 also when the sum wraps; it equals the plain sum when that fits in 32 bits |
| Tea.SubtractionMod2To32 | computer-and-network-security/tea-cryptography/TEA_Decryption.java:191-193 | the difference is the plain difference when `a >= b`, and otherwise the difference plus 2^32 |
| Tea.Mix | computer-and-network-security/tea-cryptography/TEA_Encryption.java:146-158 | the round's mix of a half-block: `((x << 4) + k1) ^ ((x >>> 5) + k2) ^ (x + delta)` with 32-bit sums; it has no contract of its own and is what the round contracts are stated in |
| Tea.EncryptRound | computer-and-network-security/tea-cryptography/TEA_Encryption.java:131-167 | the new left half is the old right half, and subtracting the mix of the old right half from the new right half gives the old left half |
| Tea.DecryptRound | computer-and-network-security/tea-cryptography/TEA_Decryption.java:135-171 | the new right half is the incoming left half, and adding the mix of the incoming left half to the new left half gives the incoming right half |
| Tea.SubtractionUndoesAddition | computer-and-network-security/tea-cryptography/TEA_Decryption.java:180-193 | subtraction mod 2^32 undoes addition mod 2^32 |
| Tea.AdditionUndoesSubtraction | computer-and-network-security/tea-cryptography/TEA_Decryption.java:180-193 | addition mod 2^32 undoes subtraction mod 2^32 |
| Tea.DecryptRoundUndoesEncryptRound | computer-and-network-security/tea-cryptography/TEA_Decryption.java:135-171 | a decryption round with the same keys and delta undoes an encryption round |
| Tea.EncryptRoundUndoesDecryptRound | computer-and-network-security/tea-cryptography/TEA_Encryption.java:131-167 | an encryption round with the same keys and delta undoes a decryption round |
| Tea.Decrypt | computer-and-network-security/tea-cryptography/TEA_Decryption.java:72-76 | the two decryption rounds (keys 2,3 then 0,1); encrypting the result with the same key gives back the ciphertext |
| Tea.Encrypt | computer-and-network-security/tea-cryptography/TEA_Encryption.java:72-76 | the two encryption rounds (keys 0,1 then 2,3); it carries no contract of its own and is related to Tea.Decrypt by Tea.DecryptUndoesEncrypt |
| Tea.DecryptUndoesEncrypt | computer-and-network-security/tea-cryptography/TEA_Decryption.java:72-76 | decrypting with the same key returns the plaintext, for every key and block |
| Tea.EncryptText | computer-and-network-security/tea-cryptography/TEA_Encryption.java:131-167 | a round reads index `round` and writes exactly index `round + 1` of both block arrays, with one encryption round |
| Tea.DecryptText | computer-and-network-security/tea-cryptography/TEA_Decryption.java:135-171 | a round reads index `round + 1` and writes exactly index `round` of both block arrays, with one decryption round |
| Tea.EncryptBlocks | computer-and-network-security/tea-cryptography/TEA_Encryption.java:72-76 | the loop leaves the plaintext at index 0, round 0's output at index 1, and the two-round encryption at index 2 |
| Tea.DecryptBlocks | computer-and-network-security/tea-cryptography/TEA_Decryption.java:72-76 | the descending loop leaves the ciphertext at index 2, round 1's output at index 1, and the two-round decryption at index 0 |
| Tea.EncryptionTestVector | computer-and-network-security/tea-cryptography/TEA_Encryption.java:8-25 | the documented key and plaintext encrypt to the documented ciphertext |
| Tea.DecryptionTestVector | computer-and-network-security/tea-cryptography/TEA_Decryption.java:8-25 | the documented ciphertext decrypts to the documented plaintext |
| Tea.MixTestValueRound0 | computer-and-network-security/tea-cryptography/TEA_Encryption.java:8-25 | the mix of the documented plaintext's right half in round 0 is 0xFF4D4639 |
| Tea.MixTestValueRound1 | computer-and-network-security/tea-cryptography/TEA_Encryption.java:8-25 | the mix of round 1 in the documented example is 0xFAF2F04F |
| Sudoku.CheckPuzzleSectionIsValid | operating-systems/sudoku-solution-validator/SudokuValidator.c:25-57 | true iff every digit 1..9 occurs exactly once in the section |
| Sudoku.SectionCountIsMultiplicity | operating-systems/sudoku-solution-validator/SudokuValidator.c:35-45 | the counter kept for a digit is its multiplicity among the section's cells |
| Sudoku.SectionValuesAreDigits | operating-systems/sudoku-solution-validator/SudokuValidator.c:40-44 | every value scanned in a section is a digit |
| Sudoku.SectionValidIffPermutationOfDigits | operating-systems/sudoku-solution-validator/SudokuValidator.c:47-56 | a section passes iff its cells are a permutation of the digits 1..9 |
| Sudoku.ColumnParameters | operating-systems/sudoku-solution-validator/SudokuValidator.c:84 | column section `i` lies in the grid and covers exactly the grid cells of column `i` |
| Sudoku.RowParameters | operating-systems/sudoku-solution-validator/SudokuValidator.c:87 | row section `i` lies in the grid and covers exactly the grid cells of row `i` |
| Sudoku.SubgridParameters | operating-systems/sudoku-solution-validator/SudokuValidator.c:90-96 | subgrid `i` lies in the grid and covers exactly the cells in block row `i / 3` and block column `i % 3` |
| Sudoku.SubgridsPartitionGrid | operating-systems/sudoku-solution-validator/SudokuValidator.c:90-96 | every grid cell lies in exactly one subgrid |
| Sudoku.MakeSectionParameters | operating-systems/sudoku-solution-validator/SudokuValidator.c:78-97 | index `k` of the three arrays holds column, row and subgrid `k` |
| Sudoku.CheckSections | operating-systems/sudoku-solution-validator/SudokuValidator.c:99-171 | the result stored at each index is the validity of that section |
| Sudoku.CombineValidity | operating-systems/sudoku-solution-validator/SudokuValidator.c:191-197 | the puzzle is valid iff every column, row and subgrid result is |
| Sudoku.CheckPuzzle | operating-systems/sudoku-solution-validator/SudokuValidator.c:78-197 | the puzzle is reported valid iff all 27 sections hold each digit exactly once |
| Languages.Language.constructor | introduction-to-theory-of-computation/language-util/src/main/java/Language.java:29-31 | a new language is empty, with cardinality 0 |
| Languages.Language.IsEmpty | introduction-to-theory-of-computation/language-util/src/main/java/Language.java:38-40 | the language is empty iff it includes no string |
| Languages.Language.Includes | introduction-to-theory-of-computation/language-util/src/main/java/Language.java:58-60 | membership of a string in the set; no contract of its own, it is what the other contracts are stated in |
| Languages.IncludesNothing | introduction-to-theory-of-computation/language-util/src/main/java/Language.java:38-40 | a language's set is empty iff no string is included |
| Languages.Language.Cardinality | introduction-to-theory-of-computation/language-util/src/main/java/Language.java:47-49 | the cardinality is 0 iff the language is empty |
| Languages.Language.AddString | introduction-to-theory-of-computation/language-util/src/main/java/Language.java:68-70 | reports a change iff the string was absent; afterwards the string is included and no other membership changes |
| Languages.Language.AddAllStrings | introduction-to-theory-of-computation/language-util/src/main/java/Language.java:79-81 | the language becomes the union with the given strings; reports a change iff the set changed, iff some given string was absent |
| Languages.Language.Concatenate | introduction-to-theory-of-computation/language-util/src/main/java/Language.java:99-113 | a new language holding exactly every string of this language followed by every string of the argument; neither operand changes |
| Languages.Language.Equals | introduction-to-theory-of-computation/language-util/src/main/java/Language.java:115-125 | two languages are equal iff the other is non-null and holds the same strings |
| Languages.ConcatWithEmpty | introduction-to-theory-of-computation/language-util/src/main/java/Language.java:99-113 | concatenating with the empty language, on either side, gives the empty language |
| Languages.ConcatIdentity | introduction-to-theory-of-computation/language-util/src/main/java/Language.java:99-113 | the language holding only the empty string is a two-sided identity of concatenation |
| Languages.ConcatAssociative | introduction-to-theory-of-computation/language-util/src/main/java/Language.java:99-113 | concatenation is associative |
| Languages.PrefixedCardinality | introduction-to-theory-of-computation/language-util/src/main/java/Language.java:107-109 | one prefix followed by each suffix gives as many distinct strings as there are suffixes |
| Languages.ConcatCardinality | introduction-to-theory-of-computation/language-util/src/main/java/Language.java:99-113 | a concatenation has at most the product of the operands' cardinalities |
| SumsToN.Sums.constructor | algorithms-and-algorithm-analysis/SumsToN.java:38-41 | the generator starts with the given target and no lists |
| SumsToN.Sums.GetSums | algorithms-and-algorithm-analysis/SumsToN.java:46-48 | appends the lists generated from the empty list, sum 0, smallest part 1 |
| SumsToN.Sums.GetSumsFrom | algorithms-and-algorithm-analysis/SumsToN.java:57-73 | appends, in the source's order, the lists the recursive generator defines for this prefix, sum and least part |
| SumsToN.GenMembers | algorithms-and-algorithm-analysis/SumsToN.java:57-73 | a list is generated iff it is the prefix followed by a non-empty, non-decreasing list of parts at least the least part, adding up to what remains |
| SumsToN.GenDistinct | algorithms-and-algorithm-analysis/SumsToN.java:55-73 | no list is generated twice |
| SumsToN.GetSumsRecordsPartitions | algorithms-and-algorithm-analysis/SumsToN.java:5-6 | `getSums()` records a list iff it is a non-decreasing list of positive integers adding up to `n`, each part is in 1..n, and no list is recorded twice |
| SumsToN.GenListsSumToN | algorithms-and-algorithm-analysis/SumsToN.java:54-66 | when the running sum is the prefix's sum, every generated list adds up to exactly `n` |
| SumsToN.NothingBelowOne | algorithms-and-algorithm-analysis/SumsToN.java:58 | for `n <= 0` nothing is recorded |

## Left out

- Input, output and the retry loops. The loaders read named files with a
  `Scanner`. On an error they print a message, wait for a key and re-read
  the file from the start. The model takes each file's lines, already split
  at tabs, as a parameter. A loader returns an `Outcome` naming the error
  and leaves out the wait and the re-read.
- Printing is left out: `printRoleHierarchy`, `printRoleObjectMatrix`,
  `printConstraints` and `printUserRoleMatrix`, the cell-width bookkeeping
  and `repeatString`. The two listings are modelled as the sequences they
  print. The prompts and the "continue?" question of `runQueryLoop` are
  left out too.
- The `main` driver of RBAC.java only calls the loaders in order. It is not
  a member of the model; the preconditions of the loaders state what each
  one needs from the earlier ones.
- Rbac.Engine.ParseRoleHierarchy: it requires every line to have at least
  two tab-separated fields. The source reads field 1 unchecked, so a
  shorter line (including "A\t", since `split` drops a trailing empty
  field) ends the program with an `ArrayIndexOutOfBoundsException`; that
  outcome is not modelled.
- Rbac.Engine.ParseRoleHierarchy: the role table is a copy of a HashSet, so
  its order depends on Java's hashing. The model takes that order as the
  `roleOrder` parameter: any duplicate-free listing of the roles named.
- Rbac.Engine.ParseResourceObjects: the object table order is taken as the
  `objectOrder` parameter, for the same reason.
- Rbac.Engine.GetDescendants: the contract states which roles the list
  holds, not their order or how often each appears. A role reached along
  two paths is listed twice in the source. The map's iteration order is
  not modelled.
- Rbac.Engine.GetDescendants: it requires an acyclic hierarchy. On a
  cycle the source recurses without end.
- Rbac.Engine.AddPermission: it requires the role to be in the role
  table. For an unknown role the source throws an index exception.
- Rbac.Engine.ParsePermissions: it requires every line to have at least
  three tab-separated fields. The source reads fields 1 and 2 unchecked, so
  a shorter line ends the program with an
  `ArrayIndexOutOfBoundsException`; that outcome is not modelled.
- Rbac.Engine.ParsePermissions: it requires every line's role to be in
  the role table, for the same reason.
- Rbac.Engine.ParseUserRoles: an unknown role always stops its line, but
  the source can end two ways there: a violation message, or an uncaught
  `IndexOutOfBoundsException` at index -1 that ends the program. Which one
  it is can depend on the HashMap order of the constraints. The model
  allows exactly the reasons some order gives, and names the exception as
  the `RoleNotFound` outcome.
- Rbac.Engine.ParseUserRoles: on success it sets the user table to the
  users in line order. That is the corrected half of the first finding
  below; the source copies the table from a HashSet (RBAC.java:747), so its
  order follows the strings' hash buckets.
- Rbac.Engine.HasUserAnyObjectPermission: the source has no such
  operation. It is the corrected half of the second finding below; for an
  empty object the source calls `hasUserObjectPermission` with the empty
  string (RBAC.java:999), which reads the last role's column.
- Rbac.Engine.Query: with a label and an empty object it answers the
  decision on any object. That is the corrected half of the second finding
  below; the source decides on the last role's column, as
  RbacSpec.EmptyObjectQueryReadsLastRoleColumn shows.
- Rbac.Engine.ParseUserRoles: the error message carries an ordinal of the
  broken constraint. That ordinal depends on the iteration order of a
  HashMap, so the model reports only the line.
- Rbac.Engine.RoleBreaksConstraint: which broken constraint is found first
  depends on HashMap iteration order. The model picks any one bound, and
  the answer does not depend on which.
- Rbac.Engine.UserRow: when the line stops, the row is left unspecified.
  The source discards it.
- Rbac.Engine.ParseConstraints: the bound is given as an integer. The
  `Integer.parseInt` step and its exception on a non-number are left out.
- Rbac.Engine.HasUserObjectPermission, Rbac.Engine.UserPermissions and
  Rbac.Engine.UserObjectPermissions require a known user. They are called
  only after `runQueryLoop` has checked this.
- The "+" and "" entries of the user-role matrix are modelled as `true`
  and `false`.
- Tea: the key and text blocks of the model are 32-bit words (`Word`).
  Reading hex with `Long.decode`, formatting with `toHexString`, and inputs
  wider than 32 bits are left out.
- Tea: the key has four blocks, so the loop bound `keyBlocks.length / 2`
  is 2.
- Sudoku: the worker threads are modelled as sequential calls. They only
  read the puzzle, and each writes its own result. Reading the puzzle file
  and printing are left out.
- Sudoku.CheckPuzzleSectionIsValid requires every cell to hold a digit
  1..9. For any other value the source indexes outside its counter array.
- Sudoku.CheckSections and Sudoku.CheckPuzzle require the same, for the
  same reason.
- Languages: the `iterator` method and `hashCode` are left out. So is the
  order of the `TreeSet`.
- Languages.Language.Cardinality returns an unbounded natural. It does
  not model the `int` cap of `size()`.
- Languages.Language.Equals takes another `Language`. The `getClass` test
  against objects of other classes is not modelled.
- Languages.Language.AddAllStrings takes its collection as a sequence.
- SumsToN: `main`, reading `n`, and `printSums` are left out.
- SumsToN.Sums.GetSumsFrom uses unbounded integers. It does not model
  `int` overflow of the running sum.

## Findings

| source | as written | input that shows it | evidently intended | confidence | as-written member | corrected member |
|---|---|---|---|---|---|---|
| computer-and-network-security/rbac/RBAC.java:747 | the user table is copied from a HashSet, so its order follows hash buckets, while the rows of the user-role matrix follow the order of the lines; each query reads the row at the user's position in the table | the lines "Alice\tA" and "Bob\tB": the strings land in buckets 6 and 4, so the table reads Bob, Alice, and every query for Alice reads Bob's row | the user table lists the users in line order, so each user's queries read that user's own row | not executed | RbacSpec.HashSetUserOrderMisreadsRows | Rbac.Engine.ParseUserRoles, RbacSpec.RowForLineOrder |
| computer-and-network-security/rbac/RBAC.java:999 | the query loop offers an empty object "for any", but with a permission given it calls `hasUserObjectPermission` with the empty object, which selects the last role's column | roles ["A"], objects ["file"], role A holding "read" on "file", a user with role A, and the query (user, "", "read"): the answer is "rejected" | an empty object with a permission asks whether the user holds that permission on any role or object | not executed | RbacSpec.EmptyObjectQueryReadsLastRoleColumn, Rbac.Engine.HasUserObjectPermission | Rbac.Engine.HasUserAnyObjectPermission, Rbac.Engine.Query |
