# AWS MFA Helper — a verified model of its core

AWS MFA Helper refreshes temporary AWS credentials from the terminal. It reads the
AWS credentials and config files and asks the operator to pick a profile, which it
lists by number. It looks up that profile's MFA device serial, asks for a token
lifetime and an MFA code, and exchanges them with STS for a session. It then writes
the session's keys into the credentials file under the derived profile
`<profile>-mfa`.

This project is a Dafny model of that logic in `aws_mfa_helper/cli.py`:

- `decimal.dfy` (`Decimal`): the integer syntax the prompts accept. This is a simplified `int()`: an optional sign and then ASCII digits. It also holds the printing function that `int()` undoes.
- `ini.dfy` (`Ini`): an INI document: section names in iteration order, and each section as a map from option to value. `Document` is the in-memory document, which is updated in place.
- `prompts.dfy` (`Prompts`): the profile menu and the three input loops, `profile_selection`, `duration_selection` and the manual branch of `mfa_entry`. Input is the sequence of lines the operator will type. Each prompt returns the first accepted line's value and the lines left over. The acceptance checks are modelled twice: as the source writes them, and with the bounds the prompts document.
- `credentials.dfy` (`Credentials`): `update_aws_creds`. It is a method that updates a `Document` in place, proved equal to the pure function `Merge`. Lemmas about `Merge` give the four written keys, the frame condition, idempotence, well-formedness, and that the profile menu is unchanged.
- `device.dfy` (`Device`): `get_mfa_device`, returning a `Result`. The missing-serial error is the program's exit 1.
- `helper.dfy` (`Helper`): the steps `main` runs once the files are loaded. `Outcome` says how a run ends. `Run` performs the run on a `Document`, and the document changes only when the run ends in `Updated`.

The derived-profile suffix is a parameter everywhere. Its default is the constant `Credentials.MfaCredsSuffix` (`-mfa`).

## Model

| member | source | states |
|---|---|---|
| `Decimal.ParseInt` | aws_mfa_helper/cli.py:150-151 | `int()` on a line. The empty line is rejected. A run of digits gives its decimal value. A negative result needs a leading `-`. Anything other than digits is accepted only as a sign followed by digits. |
| `Decimal.ParseShowInt` | aws_mfa_helper/cli.py:150-151 | The integer parser returns `n` on the decimal numeral of every integer `n`. |
| `Prompts.Choices` | aws_mfa_helper/cli.py:75-81 | The menu is at most as long as the section list. A name is on it iff it is a section name, does not end with the suffix and is not `DEFAULT`. A one-section list gives that section alone when it is selectable and nothing otherwise. |
| `Prompts.ChoicesAppend` | aws_mfa_helper/cli.py:75-81 | The menu of two concatenated section lists is the menu of the first followed by the menu of the second, so entries keep the order in which the sections are iterated. |
| `Prompts.ChoicesDistinct` | aws_mfa_helper/cli.py:75-81 | When the section names are distinct, each name appears at most once on the menu. |
| `Prompts.ChoiceList` | aws_mfa_helper/cli.py:75-81 | The first loop builds exactly `Choices`. The counter `i` equals the number of entries, and entry k is printed as the line `k+1: name`. |
| `Prompts.Accepts` | aws_mfa_helper/cli.py:84-113 | The acceptance tests. The profile and code rules accept only lines that parse. The profile rules bound the number by 1..i+1 as written and 1..i as documented. The lifetime rules take a blank line, or a number in 900..129601 as written and 900..129600 as documented. The code rule accepts a line iff it parses. |
| `Prompts.FirstAccepted` | aws_mfa_helper/cli.py:83-93 | Gives the index of the first accepted line: every earlier line is rejected. It gives none iff no line is accepted. |
| `Prompts.ReadAccepted` | aws_mfa_helper/cli.py:148-156 | The `while True` retry loop shared by the three prompts (also at cli.py:83-93 and cli.py:105-118) stops at exactly the line `FirstAccepted` names, or runs out of input when none is accepted. |
| `Prompts.ProfileAnswerAsWritten` | aws_mfa_helper/cli.py:68-95 | `profile_selection` as written. It raises IndexError only at index i, one past the menu. Otherwise the chosen name is a selectable section. It runs out of input iff no line passes the check as written. |
| `Prompts.ProfileSelection` | aws_mfa_helper/cli.py:68-95 | Profile selection with the documented bound 1..i returns `ProfileAnswer`: the chosen entry and the lines after the accepted one. |
| `Prompts.ProfileAnswerIsSelectable` | aws_mfa_helper/cli.py:78-95 | The selected profile is a section name that does not end with the suffix and is not `DEFAULT`. Selection never raises IndexError. It runs out of input iff no line is an entry number. |
| `Prompts.ProfileAnswerPicksNumbered` | aws_mfa_helper/cli.py:79-95 | Any line that parses to the number n of an entry (1 ≤ n ≤ i), such as `01` for 1, selects entry n−1 of the menu and consumes only that line. |
| `Prompts.ProfileAcceptsNumeral` | aws_mfa_helper/cli.py:86-88 | A typed integer n passes the documented check iff 1 ≤ n ≤ i. It passes the check as written iff 1 ≤ n ≤ i+1. |
| `Prompts.ProfileAsWrittenAgrees` | aws_mfa_helper/cli.py:84-95 | Selection as written raises IndexError only at index i, one past the end. Otherwise it gives the same answer as the documented selection. |
| `Prompts.ProfileIndexErrorEmptyMenu` | aws_mfa_helper/cli.py:76-95 | With only `DEFAULT`, the menu is empty. Input `1` passes the check as written and raises IndexError(0). The documented check rejects it. |
| `Prompts.ProfileIndexErrorOnePastEnd` | aws_mfa_helper/cli.py:77-95 | With one selectable profile, input `2` raises IndexError(1) as written. The documented check rejects it and takes the next line, `1`. |
| `Prompts.DurationAnswerAsWritten` | aws_mfa_helper/cli.py:105-120 | `duration_selection` as written. The answer is the default 86400, or a typed line that occurs in the input and parses to a value in 900..129601. It never raises IndexError, and it runs out of input iff no line passes the check as written. |
| `Prompts.DurationSelection` | aws_mfa_helper/cli.py:98-120 | The lifetime prompt with the documented bounds returns `DurationAnswer`. A blank line gives the integer 86400; any other accepted line is returned as text. |
| `Prompts.DurationBlankIsDefault` | aws_mfa_helper/cli.py:107-108 | A blank first line yields exactly 86400 seconds and leaves the remaining lines, in both versions of the check. |
| `Prompts.DurationAnswerInBounds` | aws_mfa_helper/cli.py:102-120 | An accepted lifetime is either the default 86400, or a typed line that occurs in the input and parses to a value in 900..129600. |
| `Prompts.DurationAcceptsNumeral` | aws_mfa_helper/cli.py:110-114 | A typed integer n passes the documented check iff 900 ≤ n ≤ 129600. It passes the check as written iff 900 ≤ n ≤ 129601. |
| `Prompts.DurationRulesDiffer` | aws_mfa_helper/cli.py:111-113 | A line passes the check as written iff it passes the documented check or parses to 129601. |
| `Prompts.DurationBoundaries` | aws_mfa_helper/cli.py:102-114 | `900` and `129600` are accepted. `899` is rejected by both checks. `129601` is accepted only by the check as written. |
| `Prompts.DurationOffByOne` | aws_mfa_helper/cli.py:105-120 | On input `129601`, the prompt as written returns that text. The documented prompt rejects it and runs out of input. |
| `Prompts.DurationAsWrittenAgrees` | aws_mfa_helper/cli.py:105-120 | The two lifetime prompts differ only when the one as written stops at a line that parses to 129601. |
| `Prompts.MfaEntry` | aws_mfa_helper/cli.py:148-158 | Manual MFA code entry returns `MfaAnswer`: the first line that parses as an integer, unchanged. |
| `Prompts.MfaAnswerIsFirstNumeric` | aws_mfa_helper/cli.py:148-158 | The returned code is an input line at some index k that parses as an integer, and no earlier line does. The prompt runs out of input iff no line parses. |
| `Prompts.MfaAcceptsAnyNumeral` | aws_mfa_helper/cli.py:129-158 | Every line that parses as an integer, of any length, is accepted as the code unchanged. No six-digit check is applied. |
| `Prompts.MfaAcceptsLeadingZero` | aws_mfa_helper/cli.py:148-158 | The codes `012345`, with a leading zero, and `+5`, with a sign, are each accepted unchanged. |
| `Credentials.WithCreds` | aws_mfa_helper/cli.py:217-221 | The section's keys afterwards are its old keys plus the four credential keys. |
| `Credentials.Merge` | aws_mfa_helper/cli.py:213-221 | The section `profile + suffix` exists afterwards. Its access key, secret key and session token are the session's, and `aws_security_token` repeats the token. Every other section is unchanged, and the section set gains at most the target. The target is appended only if it was missing. Other keys of an existing target are kept. A new target holds exactly the four keys. |
| `Credentials.MergeWellFormed` | aws_mfa_helper/cli.py:213-215 | The update keeps section names distinct and in step with the sections. |
| `Credentials.MergeIdempotent` | aws_mfa_helper/cli.py:204-223 | Updating twice with the same profile, suffix and credentials gives the same document as updating once. |
| `Credentials.MergeKeepsChoices` | aws_mfa_helper/cli.py:213-215 | The derived section never appears in the profile menu, so the update leaves the menu unchanged. |
| `Credentials.UpdateAwsCreds` | aws_mfa_helper/cli.py:204-223 | The in-place update leaves the document well formed and equal to `Merge` of its old contents. |
| `Device.MfaDevice` | aws_mfa_helper/cli.py:161-180 | Succeeds iff the section `profile <name>` exists and holds `helper_mfa_serial`, and then returns that value. Otherwise it fails with the missing-serial error. |
| `Device.MfaDeviceIgnoresBareSection` | aws_mfa_helper/cli.py:169-172 | The serial is read only from `profile <name>`. The same option under the bare profile name is not found. |
| `Helper.ExitCode` | aws_mfa_helper/cli.py:171-178 | Exit status 0 iff the run updated the credentials. A missing serial, a failed exchange and end of input all end with 1. |
| `Helper.Outcome` | aws_mfa_helper/cli.py:305-317 | How a run ends. An update or a missing serial concerns the profile the profile prompt chose. An update needs a selectable profile with a configured serial. A missing serial means the lookup failed. A failed exchange happens only after a successful lookup. |
| `Helper.Run` | aws_mfa_helper/cli.py:305-317 | The run ends as `Outcome` says. The credentials document becomes `Merge` of its old contents when the run ends in `Updated`; on every other outcome it is unchanged. |
| `Helper.UpdatedRunMeaning` | aws_mfa_helper/cli.py:305-315 | An updating run chose a profile on the menu whose MFA serial is configured. Its credentials are what the service returned for a request carrying that profile and serial. |
| `Helper.MissingSerialIsFatal` | aws_mfa_helper/cli.py:305-309 | When the chosen profile has no serial, the run ends with the missing-serial error and exit 1. No later prompt, exchange or update happens. |
| `Helper.UpdatedWhenEveryStepSucceeds` | aws_mfa_helper/cli.py:302-317 | When the profile, lifetime and code prompts all answer, the serial is configured and the exchange succeeds, the run ends in an update of that profile with the issued credentials. |
| `Helper.ExchangeFailureIsFatal` | aws_mfa_helper/cli.py:305-313 | When the prompts answer and the serial is configured but the exchange fails, the run ends with the service's message. |
| `Helper.InputEndedExactly` | aws_mfa_helper/cli.py:305-311 | The run ends for lack of input exactly when the profile prompt runs out of lines, or, after a configured serial is found, the lifetime prompt or the code prompt does. |
| `Helper.RunKeepsMenu` | aws_mfa_helper/cli.py:315-317 | After an updating run, the updated document offers the same profile menu as before. |
| `Helper.WorkExample` | aws_mfa_helper/cli.py:302-317 | Profile `work` with device `arn:x`, with input `1`, a blank line and `123456`, ends in an update of `work` with the service's credentials. |
| `Helper.WorkMerge` | aws_mfa_helper/cli.py:213-221 | In that example the update adds `work-mfa` with exactly the four credentials, and `work` and `DEFAULT` are unchanged. |

## Findings

| source | as written | input that shows it | evidently intended | confidence | as-written member | corrected member |
|---|---|---|---|---|---|---|
| aws_mfa_helper/cli.py:86-95 | `int(user_in) - 1 in range(0, i + 1)` admits the number i+1, and `choices[i]` then raises IndexError | one selectable profile and input `2`; or no selectable profile and input `1` | accept only 1..i and ask again otherwise | high; not executed | `Prompts.ProfileIndexErrorOnePastEnd` | `Prompts.ProfileAnswerIsSelectable` |
| aws_mfa_helper/cli.py:106-113 | `int(user_in) - 1 in range(899, 129601)` accepts 900..129601 | input `129601` | accept 900..129600, as the prompt text and the docstring state | high; not executed | `Prompts.DurationOffByOne` | `Prompts.DurationAcceptsNumeral` |

The checks exactly as written are `Prompts.ProfileAnswerAsWritten` and `Prompts.DurationAnswerAsWritten`. They use the rules `ProfileAsWritten` and `DurationAsWritten`. The selection methods and `Helper.Run` use the documented bounds, `Profile` and `Duration`. `ProfileAsWrittenAgrees` and `DurationAsWrittenAgrees` show that the two versions differ only on the inputs in the table.

## Left out

- `get_sts_creds` (the boto STS call) is a function parameter, `exchange`, from the request to a `Result`. A raised exception is its `Failure` case. What the service accepts, and how boto sends a text or an integer lifetime, are not modelled.
- `read_aws_file` and `save_aws_creds` do file I/O and are left out. A `Document` stands for the parsed credentials file, and a `Doc` value for the config file. The save happens exactly when `Run` returns `Updated`.
- The names in a `Doc` are given in iteration order as they are. Several `configparser` behaviours are not modelled:
  - option names are not lowercased;
  - `DEFAULT` values are not inherited in lookups;
  - `DEFAULT` is not always yielded first, and the `in` test does not always hold for it.
- `key is not 'DEFAULT'` is an identity test in the source. It is modelled as string inequality, which is what it amounts to for the parser's own `DEFAULT` name.
- The `totp_generator` / `KeyringTotpGenerator` branch of `mfa_entry` is left out. It depends on an optional library detected at run time, and only the manual branch is modelled.
- `load_helper_config` is left out. The suffix is a parameter instead. As written, `config.get('mfa_creds_suffix')` passes one argument and raises, the exception is swallowed, and the suffix stays `-mfa`.
- Also left out: `signal_handler`, `show_version`, argument parsing, logging, and the printed messages other than the profile menu lines. These deal with process and terminal interaction.
- `Decimal.ParseInt` accepts only an optional `+` or `-` followed by ASCII digits. Python's `int()` also accepts surrounding whitespace, underscores between digits and non-ASCII digits. Since Python 3.11, `int()` also raises `ValueError` on a string of more than 4300 digits. For such a line the code prompt asks again, while `MfaAnswer` accepts it.
- End of input, where `input()` raises EOFError, is modelled as the `Exhausted` answer and the `InputEnded` outcome.
- `Credentials.UpdateAwsCreds` gives the same final section as the source's four writes. The writes are applied to the section's value and stored back once. Aliasing of the section object is not modelled. The source also returns the same parser object, and that return is not modelled.
- `Helper.Run` uses the corrected prompts (see Findings). The behaviour as written is stated by the `*AsWritten` functions and the lemmas about them.
- `setup.py` is packaging only and is not part of this model.
