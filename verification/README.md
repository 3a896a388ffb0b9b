# Banned sub-package validation, modelled in Dafny

A model of the banned-sub-package policy check of Apache Jackrabbit
FileVault's package validation (`BannedSubPackageValidator`). The validator
is configured with a severity, a flag saying whether the package under
validation is itself a sub-package, and a set of `"group:name"` entries. For
every node path it is shown, it returns:

- `null` when it runs inside a sub-package;
- otherwise a list of messages, possibly empty. For a node path ending in
  `.zip`, each configured entry adds at most one message:
  - an entry that `split(":")` does not cut into exactly two pieces adds
    `"Incorrect configuration of banned package: <entry>"`;
  - a well-formed entry adds `"Found banned sub-package, group: <g>, name: <n>"`
    when the embedded archive is a content package declaring that group and
    name, and nothing otherwise.

`done()` always returns `null`.

Files:

- `wrappers.dfy`: `Option`, where `None` stands for Java's `null`.
- `java_strings.dfy`: `String.endsWith` and `String.split` with a single
  literal separator and the default limit 0. It splits at every separator,
  then drops trailing empty pieces. A string without the separator is its own
  only piece, even when empty. The module proves the exact shape of the
  strings that split into two pieces.
- `flat_map.dfy`: concatenating what each element of a sequence yields. This
  is the meaning of the per-entry loop. The module holds the list facts the
  properties rest on: membership, length, agreement and permutation.
- `banned_sub_package_validator.dfy`: the entities, the per-entry
  specification functions and the validator class. The class's
  `ValidateJcrPath` loop adds to a `MessageCollection` passed by reference,
  just as the Java loop adds to its `LinkedList`. It is proved to produce
  exactly the specified messages.
- `banned_sub_package_properties.dfy`: what the check guarantees, for every
  configuration, node and archive, plus the two scenarios of the unit tests.

Opening the embedded archive is file I/O. The model receives it as a
parameter: an oracle `Archives` from the node's (base path, file path) to one
of three outcomes. `Unreadable` is the caught `IOException`. `NoJcrRoot` is
an archive without a `jcr_root` entry. `ContentPackage(id)` is a content
package declaring `id`.

Two consequences of the code are worth stating plainly:

- The validator only tests that `split(":")` returns two pieces, and Java's
  split drops trailing empty pieces. So `":b"` (empty group), `"a:b:"` and
  `"a:b::"` are accepted, and `"a:"`, `":"` and `"a::b"` are rejected.
  `ParseEntryShape` and `ParseEntryExamples` state this.
- Inside a sub-package `validateJcrPath` returns `null` (`None`), not an
  empty list.

## Model

| member | source | states |
|---|---|---|
| JavaStrings.EndsWith | vault-validation/src/main/java/org/apache/jackrabbit/vault/validation/spi/impl/BannedSubPackageValidator.java:95 | `endsWith` holds exactly when the string is some stem followed by the suffix |
| JavaStrings.SplitAll | vault-validation/src/main/java/org/apache/jackrabbit/vault/validation/spi/impl/BannedSubPackageValidator.java:59-61 | cutting at every separator gives at least one piece, and no piece contains the separator |
| JavaStrings.DropTrailingEmpty | vault-validation/src/main/java/org/apache/jackrabbit/vault/validation/spi/impl/BannedSubPackageValidator.java:59-61 | the result is the longest prefix that does not end in an empty piece: it is a prefix, its last piece is non-empty, and everything dropped is empty |
| JavaStrings.Split | vault-validation/src/main/java/org/apache/jackrabbit/vault/validation/spi/impl/BannedSubPackageValidator.java:59-61 | no piece of `split(":")` contains the separator, and with two or more pieces the last is non-empty |
| JavaStrings.JoinSplitAll | vault-validation/src/main/java/org/apache/jackrabbit/vault/validation/spi/impl/BannedSubPackageValidator.java:59-61 | joining the pieces again with the separator gives back the original string |
| JavaStrings.SplitAllSeparatorFreePrefix | vault-validation/src/main/java/org/apache/jackrabbit/vault/validation/spi/impl/BannedSubPackageValidator.java:59-61 | a separator-free head is glued onto the first piece of the rest |
| JavaStrings.SplitAllJoin | vault-validation/src/main/java/org/apache/jackrabbit/vault/validation/spi/impl/BannedSubPackageValidator.java:59-61 | separator-free pieces joined and cut again are the same pieces: the other half of the round trip |
| JavaStrings.JoinEmptyTail | vault-validation/src/main/java/org/apache/jackrabbit/vault/validation/spi/impl/BannedSubPackageValidator.java:59-61 | a piece followed by `k` empty pieces joins to the piece followed by `k` separators |
| JavaStrings.SplitAllSeparators | vault-validation/src/main/java/org/apache/jackrabbit/vault/validation/spi/impl/BannedSubPackageValidator.java:59-61 | `k` separators cut into `k + 1` empty pieces |
| JavaStrings.SplitEmptyIff | vault-validation/src/main/java/org/apache/jackrabbit/vault/validation/spi/impl/BannedSubPackageValidator.java:59 | `split` returns no piece at all exactly when the string is non-empty and made only of separators |
| JavaStrings.SplitPieces | vault-validation/src/main/java/org/apache/jackrabbit/vault/validation/spi/impl/BannedSubPackageValidator.java:59-61 | the pieces `split` returns, padded with the empty pieces it dropped, join back to the original string |
| JavaStrings.SplitPairShape | vault-validation/src/main/java/org/apache/jackrabbit/vault/validation/spi/impl/BannedSubPackageValidator.java:59-61 | a two-piece split comes from `group`, separator, non-empty `name` and only trailing separators |
| JavaStrings.DropTrailingEmptyPadding | vault-validation/src/main/java/org/apache/jackrabbit/vault/validation/spi/impl/BannedSubPackageValidator.java:59-61 | empty pieces added after a non-empty last piece are exactly what is dropped |
| JavaStrings.SplitPairFromShape | vault-validation/src/main/java/org/apache/jackrabbit/vault/validation/spi/impl/BannedSubPackageValidator.java:59-61 | `group`, separator, non-empty `name` and trailing separators split into exactly `[group, name]` |
| JavaStrings.SplitPairIff | vault-validation/src/main/java/org/apache/jackrabbit/vault/validation/spi/impl/BannedSubPackageValidator.java:59-61 | both directions: `split` gives `[group, name]` exactly for that shape |
| JavaStrings.SplitTrailingSeparator | vault-validation/src/main/java/org/apache/jackrabbit/vault/validation/spi/impl/BannedSubPackageValidator.java:59 | `"a:b:"` splits into `["a", "b"]` |
| JavaStrings.SplitLeadingSeparator | vault-validation/src/main/java/org/apache/jackrabbit/vault/validation/spi/impl/BannedSubPackageValidator.java:59 | `":b"` splits into `["", "b"]` |
| JavaStrings.SplitEmptyLastPiece | vault-validation/src/main/java/org/apache/jackrabbit/vault/validation/spi/impl/BannedSubPackageValidator.java:59 | `"a:"` splits into `["a"]` |
| JavaStrings.SplitInnerEmptyPiece | vault-validation/src/main/java/org/apache/jackrabbit/vault/validation/spi/impl/BannedSubPackageValidator.java:59 | `"a::b"` splits into `["a", "", "b"]` |
| JavaStrings.SplitLoneSeparator | vault-validation/src/main/java/org/apache/jackrabbit/vault/validation/spi/impl/BannedSubPackageValidator.java:59 | `":"` splits into no piece |
| JavaStrings.SplitWithoutSeparator | vault-validation/src/main/java/org/apache/jackrabbit/vault/validation/spi/impl/BannedSubPackageValidator.java:59 | `""` and `"wrong-config"` are their own only piece |
| FlatMaps.FlatMap | vault-validation/src/main/java/org/apache/jackrabbit/vault/validation/spi/impl/BannedSubPackageValidator.java:57-67 | the loop's result: what each entry contributes, concatenated in visiting order; its meaning is pinned by the lemmas below |
| FlatMaps.FlatMapSnoc | vault-validation/src/main/java/org/apache/jackrabbit/vault/validation/spi/impl/BannedSubPackageValidator.java:57-67 | one more loop iteration appends that entry's messages after the earlier ones |
| FlatMaps.FlatMapAppend | vault-validation/src/main/java/org/apache/jackrabbit/vault/validation/spi/impl/BannedSubPackageValidator.java:57-67 | the messages of two stretches of entries are the first stretch's followed by the second's |
| FlatMaps.FlatMapMember | vault-validation/src/main/java/org/apache/jackrabbit/vault/validation/spi/impl/BannedSubPackageValidator.java:57-67 | a message is in the result exactly when some entry contributes it |
| FlatMaps.FlatMapNone | vault-validation/src/main/java/org/apache/jackrabbit/vault/validation/spi/impl/BannedSubPackageValidator.java:57-67 | entries that each contribute nothing give an empty result |
| FlatMaps.FlatMapAtMostOne | vault-validation/src/main/java/org/apache/jackrabbit/vault/validation/spi/impl/BannedSubPackageValidator.java:57-67 | at most one message per entry bounds the result by the number of entries |
| FlatMaps.FlatMapAll | vault-validation/src/main/java/org/apache/jackrabbit/vault/validation/spi/impl/BannedSubPackageValidator.java:57-67 | a property every entry's contribution has, every message of the result has |
| FlatMaps.FlatMapAgree | vault-validation/src/main/java/org/apache/jackrabbit/vault/validation/spi/impl/BannedSubPackageValidator.java:57-67 | per-entry checks that agree on every entry give the same result |
| FlatMaps.FlatMapPermutation | vault-validation/src/main/java/org/apache/jackrabbit/vault/validation/spi/impl/BannedSubPackageValidator.java:57 | reordering the entries only reorders the results: equal multisets of entries give equal multisets of results |
| BannedSubPackages.IsSubPackage | vault-validation/src/main/java/org/apache/jackrabbit/vault/validation/spi/impl/BannedSubPackageValidator.java:94-96 | a node path is a sub-package exactly when it is some stem followed by `.zip` |
| BannedSubPackages.ParseEntry | vault-validation/src/main/java/org/apache/jackrabbit/vault/validation/spi/impl/BannedSubPackageValidator.java:59-61 | a well-formed entry's group and name are pieces 0 and 1 of one split (colon-free, name non-empty); a rejected entry does not split into two pieces |
| BannedSubPackages.ConfigErrorText | vault-validation/src/main/java/org/apache/jackrabbit/vault/validation/spi/impl/BannedSubPackageValidator.java:64 | the configuration error is the fixed prefix `Incorrect configuration of banned package: ` followed by the entry verbatim |
| BannedSubPackages.BannedFoundText | vault-validation/src/main/java/org/apache/jackrabbit/vault/validation/spi/impl/BannedSubPackageValidator.java:81 | the violation is the prefix `Found banned sub-package, group: `, the group, `, name: ` and the name, with group and name readable back at their positions |
| BannedSubPackages.SubPackageFindings | vault-validation/src/main/java/org/apache/jackrabbit/vault/validation/spi/impl/BannedSubPackageValidator.java:76-82 | at most one message; one exactly when the archive is a content package whose group and name both equal the entry's, and then it is the violation for that pair at the configured severity |
| BannedSubPackages.EntryMessages | vault-validation/src/main/java/org/apache/jackrabbit/vault/validation/spi/impl/BannedSubPackageValidator.java:58-66 | one entry adds at most one message, at the configured severity, and none for a path not ending in `.zip` |
| BannedSubPackages.PathMessages | vault-validation/src/main/java/org/apache/jackrabbit/vault/validation/spi/impl/BannedSubPackageValidator.java:57-67 | the messages of all entries in visiting order: no more messages than entries, every one at the configured severity |
| BannedSubPackages.MessageCollection.constructor | vault-validation/src/main/java/org/apache/jackrabbit/vault/validation/spi/impl/BannedSubPackageValidator.java:56 | a new message list is empty |
| BannedSubPackages.MessageCollection.Add | vault-validation/src/main/java/org/apache/jackrabbit/vault/validation/spi/impl/BannedSubPackageValidator.java:64 | adding a message appends it after the earlier ones |
| BannedSubPackages.BannedSubPackageValidator.constructor | vault-validation/src/main/java/org/apache/jackrabbit/vault/validation/spi/impl/BannedSubPackageValidator.java:45-49 | the severity, the sub-package flag and the banned entries are stored as given |
| BannedSubPackages.BannedSubPackageValidator.ValidateJcrPath | vault-validation/src/main/java/org/apache/jackrabbit/vault/validation/spi/impl/BannedSubPackageValidator.java:52-69 | `null` inside a sub-package; otherwise exactly the messages of every configured entry, in iteration order |
| BannedSubPackages.BannedSubPackageValidator.ValidateSubPackage | vault-validation/src/main/java/org/apache/jackrabbit/vault/validation/spi/impl/BannedSubPackageValidator.java:71-87 | the earlier messages stay; the violation is appended only for a content package with the banned group and name |
| BannedSubPackages.BannedSubPackageValidator.Done | vault-validation/src/main/java/org/apache/jackrabbit/vault/validation/spi/impl/BannedSubPackageValidator.java:89-92 | always `null` |
| BannedSubPackageProperties.ParseEntryShape | vault-validation/src/main/java/org/apache/jackrabbit/vault/validation/spi/impl/BannedSubPackageValidator.java:59-61 | an entry parses to `(group, name)` exactly when it is `group:name` plus trailing colons, with colon-free group and name and a non-empty name |
| BannedSubPackageProperties.ParseEntryExamples | vault-validation/src/main/java/org/apache/jackrabbit/vault/validation/spi/impl/BannedSubPackageValidator.java:59-64 | `"wrong-config"`, `""`, `":"`, `"a:"` and `"a::b"` are malformed; `"a:b:"` and `":b"` are well formed |
| BannedSubPackageProperties.NotApplicableYieldsEmpty | vault-validation/src/main/java/org/apache/jackrabbit/vault/validation/spi/impl/BannedSubPackageValidator.java:56-68 | for a path not ending in `.zip`, or with no entries, the result is an empty list |
| BannedSubPackageProperties.MalformedEntryIgnoresArchive | vault-validation/src/main/java/org/apache/jackrabbit/vault/validation/spi/impl/BannedSubPackageValidator.java:59-64 | a malformed entry adds exactly the configuration error, whatever the archive holds |
| BannedSubPackageProperties.MalformedEntryReported | vault-validation/src/main/java/org/apache/jackrabbit/vault/validation/spi/impl/BannedSubPackageValidator.java:57-67 | every malformed entry's configuration error appears in the result for a `.zip` node |
| BannedSubPackageProperties.ConfigErrorReportedIff | vault-validation/src/main/java/org/apache/jackrabbit/vault/validation/spi/impl/BannedSubPackageValidator.java:57-64 | the configuration error naming an entry is in the result exactly when the node is a `.zip` and some configured entry equal to it is malformed; and then only at the configured severity |
| BannedSubPackageProperties.WellFormedEntryFinding | vault-validation/src/main/java/org/apache/jackrabbit/vault/validation/spi/impl/BannedSubPackageValidator.java:59-82 | a well-formed entry adds the violation for its pieces 0 and 1 exactly when the archive is a content package with that group and name, and nothing otherwise |
| BannedSubPackageProperties.NoContentPackageOnlyConfigErrors | vault-validation/src/main/java/org/apache/jackrabbit/vault/validation/spi/impl/BannedSubPackageValidator.java:73-86 | when the archive cannot be read or has no `jcr_root`, the result is only the configuration errors, in order |
| BannedSubPackageProperties.FailedOpenKeepsEarlierMessages | vault-validation/src/main/java/org/apache/jackrabbit/vault/validation/spi/impl/BannedSubPackageValidator.java:73-86 | a well-formed entry checked against a failed archive leaves the earlier messages unchanged and adds none |
| BannedSubPackageProperties.TextsDistinct | vault-validation/src/main/java/org/apache/jackrabbit/vault/validation/spi/impl/BannedSubPackageValidator.java:64-81 | no configuration error has the text of a violation |
| BannedSubPackageProperties.NameLabelOnlyColon | vault-validation/src/main/java/org/apache/jackrabbit/vault/validation/spi/impl/BannedSubPackageValidator.java:81 | between colon-free group and name the violation text holds exactly one colon, the one in `, name: ` |
| BannedSubPackageProperties.BannedFoundTextInjective | vault-validation/src/main/java/org/apache/jackrabbit/vault/validation/spi/impl/BannedSubPackageValidator.java:81 | a violation text determines its group and name when they are colon-free |
| BannedSubPackageProperties.ViolationReportedIff | vault-validation/src/main/java/org/apache/jackrabbit/vault/validation/spi/impl/BannedSubPackageValidator.java:57-82 | the violation for `(group, name)` is reported exactly when the node is a `.zip`, the archive declares that group and name, and some entry parses to that pair; and then only at the configured severity |
| BannedSubPackageProperties.OrderIndependent | vault-validation/src/main/java/org/apache/jackrabbit/vault/validation/spi/impl/BannedSubPackageValidator.java:57 | the messages, counted with multiplicity, do not depend on the set's iteration order |
| BannedSubPackageProperties.SingleBannedEntryReported | vault-validation/src/main/java/org/apache/jackrabbit/vault/validation/spi/impl/BannedSubPackageValidator.java:57-81 | a lone entry `group:name` checked against the package it bans gives exactly that one violation |
| BannedSubPackageProperties.SingleMalformedEntryReported | vault-validation/src/main/java/org/apache/jackrabbit/vault/validation/spi/impl/BannedSubPackageValidator.java:57-64 | a lone colon-free entry gives exactly its configuration error |
| BannedSubPackageProperties.TestEntryPathIsSubPackage | vault-validation/src/test/java/org/apache/jackrabbit/vault/validation/spi/impl/BannedSubPackageValidatorTest.java:40 | the node path of the tests ends in `.zip` |
| BannedSubPackageProperties.TestGroupColonFree | vault-validation/src/test/java/org/apache/jackrabbit/vault/validation/spi/impl/BannedSubPackageValidatorTest.java:38 | the group of the banned test entry has no colon |
| BannedSubPackageProperties.TestNameColonFree | vault-validation/src/test/java/org/apache/jackrabbit/vault/validation/spi/impl/BannedSubPackageValidatorTest.java:38 | the name of the banned test entry has no colon and is non-empty |
| BannedSubPackageProperties.BannedSubPackageScenario | vault-validation/src/test/java/org/apache/jackrabbit/vault/validation/spi/impl/BannedSubPackageValidatorTest.java:35-45 | banning the embedded test package's own group and name gives exactly one violation, at `ERROR` |
| BannedSubPackageProperties.IncorrectConfigurationScenario | vault-validation/src/test/java/org/apache/jackrabbit/vault/validation/spi/impl/BannedSubPackageValidatorTest.java:47-58 | `"wrong-config"` gives exactly its configuration error, at `ERROR`, whatever the archive holds |

## Left out

- Opening the nested zip, `getJcrRoot()` and reading the package properties are library calls and file I/O. They are replaced by the `Archives` oracle and its three outcomes. The Java code reopens the archive once per well-formed entry, so a transient `IOException` or a file changed between opens could give different outcomes for different entries; the oracle is a function, so every reopen within one `validateJcrPath` call gives the same outcome, and `ViolationReportedIff` and `OrderIndependent` rely on that.
- `getBasePath().resolve(getFilePath())` is path resolution on the file system. The oracle is keyed by the (base path, file path) pair instead of by the resolved path.
- The debug and warn log lines have no effect on the result and are left out.
- The `isFolder` and `isDocViewXml` parameters are never read, so they are not modelled.
- The `Set<String>` of banned entries is a sequence in the model, because `HashSet` iteration order is unspecified. `OrderIndependent` shows that the order changes nothing but the message order. Duplicates cannot occur in the Java set; the model allows them, which is more general. The constructor keeps a reference to the caller's set, so a later change to that set changes what later `validateJcrPath` calls see; the model's `bannedSubPackages` is a snapshot taken at construction and does not capture that aliasing.
- A package without package properties (`getMetaInf().getPackageProperties()` returning `null`), or whose properties yield no identity (`getId()` returning `null`), makes line 80 raise a `NullPointerException` that escapes `validateSubPackage`. `PackageProperties` is not part of this model, and `ContentPackage` always carries an identity.
- `ValidationMessageSeverity` is only passed through. It is not part of this model beyond three representative values.
- `ValidationMessage` is modelled by its severity and text. Its other constructor arguments are not used here.
- Java's `split` takes a regular expression. The model covers only the single literal character `:` that the validator passes.
- The unit tests' archive fixtures are classpath resources. The scenarios take the archive as a requirement on the oracle.
