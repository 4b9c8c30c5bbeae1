# Lepton CLI helpers: command abbreviation and exit decisions

A Dafny model of the logic in the Lepton command-line client's `leptonai/cli/util.py`:

- **Command resolution** (`ClickAliasedGroup`). A typed sub-command token is first looked up
  exactly. If there is no exact match, the group collects every registered name that the token
  abbreviates. A token abbreviates a name when both start with the same character and the token's
  characters occur in the name in order (a subsequence, not a substring). No match means "not
  found". One match resolves to that name. Two or more fail with `'<token>' is ambiguous: ` followed
  by the matches, sorted and joined by `", "`. `resolve_command` reports the name of the command it resolved, not the typed abbreviation.
- **Exit decisions.** `check` and `guard_api` either return or exit the process with status 1.
  `explain_response` chooses one of three caller messages from a response's `ok`, `is_redirect` and
  status code, then either returns or exits.

Modules:

- `Abbreviation` (`abbrev.dfy`): `is_abbrev`. `IsAbbrevScan` is a method with the source's single
  forward-moving cursor over the name. It is proved equal to `IsAbbrev`, a greedy recursive
  definition. That definition is in turn proved equivalent, in both directions, to an independent
  one: a strictly increasing map from the token's characters to equal characters of the name.
- `StrOrder` (`strorder.dfy`): Python's ordering of `str` and `sorted`, used for the ambiguity
  message. The sort is proved to produce a sorted permutation, and that permutation is proved to be
  the only sorted one.
- `CommandResolver` (`resolver.dfy`): `get_command` and `resolve_command` over the list of
  registered names that `list_commands` yields.
- `Exits` (`exits.dfy`): `check`, `guard_api` and `explain_response`. Process exit is an
  `Exit(1)` value.

Facts about the source that shape the model:

- The docstring of `explain_response` (leptonai/cli/util.py:119-122) speaks of 2xx and 3xx status
  codes, but the code (leptonai/cli/util.py:126) tests `response.ok or response.is_redirect`. The
  model follows the code and takes `ok`, `is_redirect` and the status code as three independent
  inputs.
- `is_abbrev` (leptonai/cli/util.py:44-47) compares the first characters, then walks the whole
  token through the name, first character included. Because the first characters are already equal,
  the first character of the token consumes the first character of the name.
- An empty token raises `IndexError` at `x[0]` (leptonai/cli/util.py:44) as soon as the
  comprehension on line 49 tests its first registered name. It does not raise when the token is
  itself a registered name or when no name is registered. The model returns an `IndexError` outcome
  in exactly that case.

## Model

| member | source | states |
|---|---|---|
| `Abbreviation.IsAbbrevScan` | leptonai/cli/util.py:42-47 | The loop with one cursor over `y`, which advances past the first character equal to each character of `x` and fails when it runs off the end, returns exactly `IsAbbrev(x, y)`. |
| `Abbreviation.IsAbbrevCharacterization` | leptonai/cli/util.py:43-47 | `is_abbrev(x, y)` is false when the first characters differ. When they agree, it holds iff some strictly increasing choice of positions in `y` spells out `x`. |
| `Abbreviation.SubsequenceEmbeds` | leptonai/cli/util.py:46-47 | When greedy matching through the shared iterator succeeds, it yields such an order-preserving embedding of `x` in `y`. |
| `Abbreviation.EmbeddingIsSubsequence` | leptonai/cli/util.py:46-47 | Greedy matching never misses: whenever `x` embeds in order into `y`, the iterator walk succeeds. |
| `Abbreviation.SubsequenceNotSubstring` | leptonai/cli/util.py:46-47 | Subsequence and not substring semantics: `dp` abbreviates `deploy` but occurs nowhere contiguously in it. |
| `Abbreviation.FirstCharacterRequired` | leptonai/cli/util.py:43-45 | The first-character test is needed: `ab` is in order in `cab` but is not an abbreviation of it. |
| `CommandResolver.Matches` | leptonai/cli/util.py:49 | For a non-empty token, the comprehension keeps exactly the names the token abbreviates, each as often as it is listed. |
| `CommandResolver.GetCommand` | leptonai/cli/util.py:37-55 | An exact name wins even when the token abbreviates others. An empty token crashes iff some name is registered. A non-empty token is not found iff it is no name and abbreviates none. A resolved name is always registered, and when it differs from the token it is the only name the token abbreviates. An ambiguous outcome lists at least two candidates, sorted, which are exactly the abbreviated names with their multiplicities. |
| `CommandResolver.AmbiguityMessageLayout` | leptonai/cli/util.py:55 | In the failure text, after the quoted token and ` is ambiguous: `, the `k`-th candidate sits at its own offset in the `", "`-join of the candidates. |
| `StrOrder.JoinAt` | leptonai/cli/util.py:55 | In `sep.join(parts)` the `k`-th part sits at the offset of all earlier parts and separators. A separator follows every part but the last, and the string ends with the last part. |
| `StrOrder.JoinSuffix` | leptonai/cli/util.py:55 | From the start of its `k`-th part on, the joined string is the join of the remaining parts. |
| `CommandResolver.ResolveCommand` | leptonai/cli/util.py:37-60 | The command that runs is always a registered name, never the typed abbreviation. It runs on the remaining arguments. A typed exact name runs itself. Otherwise the typed token abbreviates the name that runs. "No such command" happens exactly when the token is no name and abbreviates none (an empty token only when no name is registered). The usage error occurs exactly when a non-empty token is no name and has two or more matches. Its message is the quoted token, ` is ambiguous: ` and a sorted permutation of the matches joined by `", "`. The process crashes exactly on an empty token with at least one name registered. |
| `CommandResolver.UniqueAbbreviationResolves` | leptonai/cli/util.py:49-54 | Converse of resolution: with distinct names, a token that is no name and abbreviates exactly one name resolves to it. |
| `CommandResolver.UniqueAbbreviationRuns` | leptonai/cli/util.py:53-60 | With distinct names, a token that is no name and abbreviates exactly one name runs that command on the remaining arguments. |
| `CommandResolver.TwoAbbreviatedAmbiguous` | leptonai/cli/util.py:49-55 | A token that is no name and abbreviates two different names is ambiguous. |
| `CommandResolver.AmbiguousCandidatesDistinct` | leptonai/cli/util.py:55 | With distinct registered names, the candidates listed for an ambiguous token are distinct. |
| `CommandResolver.OrderIndependent` | leptonai/cli/util.py:49-55 | The order of the registry's names does not change the outcome, including the candidate order in the ambiguity message. |
| `CommandResolver.ExactNameWins` | leptonai/cli/util.py:38-40 | `log` resolves to `log` among `log` and `logs`, although it also abbreviates `logs`. |
| `CommandResolver.AmbiguousExample` | leptonai/cli/util.py:49-55 | `de` among `deploy`, `delete` and `describe` is ambiguous, listed as `delete`, `deploy`, `describe`. |
| `CommandResolver.ResolvedExample` | leptonai/cli/util.py:42-54 | `dp` among `deploy` and `status` resolves to `deploy`. |
| `CommandResolver.NotFoundExample` | leptonai/cli/util.py:42-52 | `xz` among `logs` is not found. |
| `StrOrder.SortSorted` | leptonai/cli/util.py:55 | `sorted` returns a list in non-decreasing Python string order. |
| `StrOrder.SortPermutes` | leptonai/cli/util.py:55 | `sorted` returns a permutation of its input. |
| `StrOrder.SortedUnique` | leptonai/cli/util.py:55 | Two sorted permutations of each other are equal, so the sorted candidate list is determined by the candidates alone. |
| `StrOrder.LessTotal` | leptonai/cli/util.py:55 | Python's string order is total: distinct strings are ordered one way or the other. |
| `Exits.Check` | leptonai/cli/util.py:90-92 | `check` exits, with status 1, exactly when its condition is false. |
| `Exits.GuardApi` | leptonai/cli/util.py:107-114 | `guard_api` returns its argument's content unchanged unless it is an `APIError`, in which case it exits with status 1. |
| `Exits.ExplainResponse` | leptonai/cli/util.py:126-153 | The success message is chosen iff the response is ok or a redirect, and it never exits. Otherwise a 400..499 status chooses the client-error message, which exits iff `exit_if_4xx`. Any other status chooses the fallback message, which always exits. Every exit has status 1. |
| `Exits.ExitIf4xxOnlyAddsExits` | leptonai/cli/util.py:146-153 | Setting `exit_if_4xx` does not change the chosen message and never removes an exit. |
| `Exits.NotFoundResponse` | leptonai/cli/util.py:131-153 | A non-ok 404 chooses the client-error message, and it returns or exits according to `exit_if_4xx`. |

## Left out

- `sizeof_fmt` (leptonai/cli/util.py:156-165): floating-point division and `%3.1f` formatting.
- `is_valid_url` (leptonai/cli/util.py:65-67): it delegates to `urllib.parse.urlparse`, whose rules are not part of this model.
- `get_connection_or_die`, `get_only_replica_public_ip_or_die` and `_get_only_replica_public_ip` (leptonai/cli/util.py:70-80, 168-190): they read local login records and call the remote workspace and deployment API.
- `catch_deprecated_flag` (leptonai/cli/util.py:23-32): it reads click's parameter source and only prints a warning.
- Printing: Rich console output, loguru tracing, the `detail` and `msg` printing of `guard_api`, and whether a falsy `if_2xx` is printed. `explain_response` prints a line from `response.json()` or from the raw text; that line is not modelled, only which caller message follows it.
- Process termination: `sys.exit(1)` is the value `Exit(1)`. The ambiguity failure, click's `ctx.fail`, is a `UsageError` value, not a raised exception.
- click internals: the registry is the list of names `list_commands` yields, and a lookup is membership in it. The model does not include the text of click's own "no such command" failure (`NoSuchCommand`), its token normalisation, or its resilient-parsing mode.
- Truthiness: `check` takes a `bool`. `guard_api` tells errors apart by the `ApiError` constructor rather than by `isinstance`.
- `GetCommand` requires every registered name to be non-empty. The source would crash reading the first character of an empty name, and click does not register one in practice.
- ResolveCommand: it reports the key a command is registered under. The source (leptonai/cli/util.py:60) reports `cmd.name`, the command object's own name. That equals the key only for commands registered under their own name; click's `add_command` can register a command under another key. Command objects are not part of this model.
