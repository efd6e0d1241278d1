# FileClassifier of the WWF Analyzer, in Dafny

The WWF Analyzer reads per-server permission listings and reports world-writable
files. FileClassifier.h:5-8 describes the FileClassifier class as meant for
deciding whether a file is "ignored" or "critical". The analyzer itself does not
create the class: its free functions `is_ignored` and `is_critical` repeat the
same logic inline over global rule lists. A FileClassifier holds two rule lists:

- extension rules, compared exactly and case-sensitively with the text after
  the last `\`, `/` or `.` of the file name;
- substring rules, looked for anywhere in the full name, path separators
  included, so that a rule like `/tmp/` selects a directory.

A name has the classification when any substring rule occurs in it or any
extension rule equals its extension. New rules go to the front of their list.

The model has three modules:

- `StringOps` (`string_ops.dfy`) covers the two `std::string` searches the
  classifier uses. `Find` is `find` and `FindLastOf` is `find_last_of`.
  `string::npos` ("not found") becomes `None`.
- `FileClassifier` (`file_classifier.dfy`) holds the classifier as an immutable
  record of two `seq<string>`, the two add operations and the extension. It
  also gives `satisfies` twice: as the predicate `Satisfies` ("some rule
  matches") and as the loop method `SatisfiesLoop`, which is proved equal to
  it.
- `ClassifierProperties` (`classifier_properties.dfy`) holds the lemmas. They
  cover the extension's characterization, the edge cases, monotonicity under
  adding rules, and independence from rule order and repetition. A few
  concrete examples are included.

When `find_last_of` finds no separator, it returns `npos`. `npos + 1` then wraps
around in the unsigned `size_t` to 0, so the extension is the whole name.
`SubstrStart` models this wrap-around as "start at 0".

Rules are added at the front of the list (`push_front`, FileClassifier.cpp:13
and :16), and the model does the same. `SameRulesSameVerdict` proves that the
order and repetition of rules do not change any verdict.

## Model

| member | source | states |
|---|---|---|
| StringOps.Find | FileClassifier.cpp:25 | `find` returns the first index at which the pattern occurs. It returns npos exactly when the pattern is not a substring. The empty pattern is found at 0. |
| StringOps.FindLastOf | FileClassifier.cpp:32 | `find_last_of` returns the index of the last character in the set. It returns npos exactly when no character of the name is in the set. |
| FileClassifier.AddExtension | FileClassifier.cpp:12-14 | The new extension becomes the first extension rule. The other rules keep their order. The substring list is unchanged. The rule multiset gains exactly one copy, with no deduplication. |
| FileClassifier.AddSubstring | FileClassifier.cpp:15-17 | The mirror of AddExtension: the new substring goes first and the extension list is unchanged. |
| FileClassifier.Extension | FileClassifier.cpp:32 | The extension is a suffix of the name and contains no separator. It is either the whole name or comes right after a separator. |
| FileClassifier.SatisfiesLoop | FileClassifier.cpp:20-45 | The loop returns true iff some substring rule occurs in the name or the name's extension equals some extension rule. Nothing else returns true. This is the contract of FileClassifier.h:30. |
| ClassifierProperties.ExtensionCharacterization | FileClassifier.cpp:32 | Exactly one string is a separator-free suffix that is either the whole name or follows a separator, and it is the extension. Both directions are proved. |
| ClassifierProperties.ExtensionIsWholeName | FileClassifier.cpp:32 | The extension is the whole name iff the name contains none of `\`, `/`, `.`. This is the npos + 1 == 0 case. |
| ClassifierProperties.ExtensionIsEmpty | FileClassifier.cpp:32 | The extension is empty iff the name is empty or ends in `\`, `/` or `.`. |
| ClassifierProperties.EmptyClassifierMatchesNothing | FileClassifier.cpp:43-44 | With both rule lists empty, no name has the classification. |
| ClassifierProperties.SubstringRuleMatchesAnywhere | FileClassifier.cpp:23-27 | A substring rule that occurs at any position of the name makes the name match. |
| ClassifierProperties.EmptySubstringRuleMatchesAll | FileClassifier.cpp:23-27 | An empty substring rule makes every name match. |
| ClassifierProperties.EmptyExtensionRuleMatches | FileClassifier.cpp:32-40 | An empty extension rule makes every name match that is empty or ends in a separator. |
| ClassifierProperties.AddExtensionVerdict | FileClassifier.cpp:12-45 | After add_extension(e), a name matches iff it matched before or its extension is e. |
| ClassifierProperties.AddSubstringVerdict | FileClassifier.cpp:15-28 | After add_substring(s), a name matches iff it matched before or it contains s. |
| ClassifierProperties.AddRuleIsMonotone | FileClassifier.cpp:12-45 | Adding a rule of either kind never removes a name from the classification. |
| ClassifierProperties.SameRulesSameVerdict | FileClassifier.cpp:20-45 | Two classifiers with the same sets of rules agree on every name. List order and repetition do not matter. |
| ClassifierProperties.AddRuleSets | FileClassifier.cpp:12-17 | Each add operation grows its own rule set by exactly the new rule and leaves the other rule set unchanged. |
| ClassifierProperties.ExtensionInsertionOrderIrrelevant | FileClassifier.cpp:12-40 | Adding two extension rules in either order gives the same verdict on every name. |
| ClassifierProperties.SubstringInsertionOrderIrrelevant | FileClassifier.cpp:15-28 | Adding two substring rules in either order gives the same verdict on every name. |
| ClassifierProperties.DuplicateRuleIrrelevant | FileClassifier.cpp:12-45 | Adding a rule that is already present changes no verdict. |
| ClassifierProperties.ShellScriptIsCritical | FileClassifier.cpp:32-40 | With the single extension rule `sh`, `/home/alice/secrets.sh` matches. |
| ClassifierProperties.ExtensionMatchIsCaseSensitive | FileClassifier.cpp:37 | With the single extension rule `sh`, `run.SH` does not match, because the comparison is exact. |
| ClassifierProperties.ExtensionExamples | FileClassifier.cpp:32 | Only the last separator counts. `archive.tar.gz` has extension `gz`, `C:\logs\` has the empty extension, and `Makefile` is its own extension. |
| ClassifierProperties.TmpDirectoryIsIgnored | FileClassifier.cpp:23-27 | The substring rule `/tmp/` matches `/var/tmp/cache.db`, because substrings match across path separators. |

## Left out

- Line parsing, per-(owner, server) aggregation, report building, directory enumeration, preference-file loading and console I/O in WWF Analyzer.cpp are not part of this model. Only the classifier is modelled.
- `is_ignored` and `is_critical` (WWF Analyzer.cpp:430-479) repeat the classifier's logic over global rule lists. They follow the same contract and are not modelled separately.
- The edge cases of empty rules (EmptySubstringRuleMatchesAll, EmptyExtensionRuleMatches) describe the class as written. The analyzer never adds an empty (trimmed) rule (WWF Analyzer.cpp:339, :346, :353, :360), so it cannot reach them.
- SatisfiesLoop does not say that `satisfies` leaves both rule lists unchanged. In the model the classifier is an immutable value, so this holds by construction rather than by a contract.
- SatisfiesLoop does not report which rule short-circuited the scan. Only the boolean verdict is modelled, and that verdict does not depend on rule order.
- `std::list` nodes and iterators are modelled as `seq<string>`. `size_t` is modelled as unbounded `nat`, apart from the `npos + 1` wrap-around, which `SubstrStart` models.
- Character encoding is not modelled. Names are sequences of `char`, and the comparison is code-unit by code-unit.
