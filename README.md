# Capsize deployer, modelled in Dafny

Capsize runs Capistrano deployments that are described by database records.
A deployment belongs to a stage of a project. Each of them holds
configuration parameters, and the stage also holds roles (bound to hosts)
and recipes. `Capsize::Deployer` turns those records into two Capistrano
configuration files, `deploy.rb` and `<stage>.rb`. It then has Capistrano
run the deployment's task and records on the deployment whether the run
succeeded.

This project models that class:

- `RubyString` holds the Ruby string behaviour the class relies on:
  - `strip` and `split` with a literal separator;
  - `join`, `scan(c).size` and `Integer#to_s`;
  - the regular expressions it matches. Their `.` stops at a newline,
    and this is modelled exactly.
- `Casting` and `TypeCastRules` cover `Deployer.type_cast`, which reads a
  typed value back from a parameter's raw text. Its result is one of six
  kinds (nil, boolean, symbol, string, list, hash). Hashes are association
  lists that keep Ruby's insertion order. `CastExamples` has concrete
  readings.
- `ParameterPrinter` covers `print_parameter` and the two `set_*` helpers.
  They render a parameter as a `set` line, quoted or verbatim.
- `ScriptWriter` covers `write_deploy`, `write_stage`, `find_host_user` and
  `after_flow`. Both writers are loop methods that build the sequence of
  lines handed to `puts`.
- `Deployer` holds:
  - the `Deployment` record, whose status changes only through
    `complete_with_error!` and `complete_successfully!`;
  - the `Deployer` class, with `validate` at construction, `execute!` and
    `invoke_task!`;
  - the message `handle_error` logs.

  Capistrano, the file system and the process set-up are foreign, so
  their behaviour in one run is given as an `Environment` value. It says
  whether creating the project directory raises, whether loading the
  requirements raises, and whether Capistrano completes, throws its abort
  sentinel or raises.

## Behaviour worth noting

- An empty value is written, not left out. A parameter whose value is
  empty after stripping renders as `set :name, ''`
  (`ParameterPrinter.EmptyValueQuoted`), because `val[0]` is nil and the
  tests fall through to the quoted branch.
- Standard output is not restored on every path. `execute!` has no
  `ensure` around the redirection. If Capistrano raises, the `rescue` skips
  `close_output` and `$stdout` stays redirected. `Deployer.Deployer.Execute`
  and `Deployer.Deployer.InvokeTask` state this.

## Model

| member | source | states |
|---|---|---|
| RubyString.Strip | lib/capsize/deployer.rb:94 | the result has no whitespace at either end, and it sits inside the input with only whitespace around it |
| RubyString.StripRemovesPadding | lib/capsize/deployer.rb:94 | a trimmed text with any whitespace added around it strips back to itself |
| RubyString.StripIgnoresPadding | lib/capsize/deployer.rb:133 | extra whitespace around any text does not change what `strip` gives |
| RubyString.StripIdempotent | lib/capsize/deployer.rb:133 | stripping a stripped value changes nothing |
| RubyString.Split | lib/capsize/deployer.rb:103-105 | `split` with a literal separator; every piece is no longer than the text. What the pieces are is stated by `RubyString.JoinFields`, `RubyString.LastFieldEmpty`, `RubyString.FieldsNoSep` and `RubyString.SplitKey` |
| RubyString.JoinFields | lib/capsize/deployer.rb:103 | splitting before dropping empty trailing fields loses nothing: joining the fields with the separator gives the text back |
| RubyString.FieldsCount | lib/capsize/deployer.rb:103 | splitting on a character gives one field more than the character occurs |
| RubyString.LastFieldEmpty | lib/capsize/deployer.rb:103 | the last field is empty exactly when the text is empty or ends with the separator, which is when `split` drops trailing fields |
| RubyString.FieldsJoin | lib/capsize/deployer.rb:163 | joining parts with a character none of them holds and splitting on it gives the parts back |
| RubyString.FieldsHead | lib/capsize/deployer.rb:103-105 | the first field is a prefix of the text, and the separator follows it in the text whenever more fields come after it |
| RubyString.FieldsNoSep | lib/capsize/deployer.rb:103-105 | no field holds the separator anywhere inside it, for a separator of any length such as `=>` |
| RubyString.SplitKey | lib/capsize/deployer.rb:105 | the key `pair.split('=>')` yields is the text before the first `=>`: a prefix holding no `=>`, followed by `=>` or by the end of the text |
| RubyString.DecimalString | lib/capsize/deployer.rb:188 | `host_id.to_s` is a non-empty run of decimal digits |
| RubyString.DecimalStringNoLeadingZero | lib/capsize/deployer.rb:188 | `host_id.to_s` is `"0"` exactly for zero and never starts with `0` otherwise |
| RubyString.DecimalStringValue | lib/capsize/deployer.rb:188 | the digits `to_s` writes read back as the host id itself |
| RubyString.AnchoredGroup | lib/capsize/deployer.rb:102 | a captured group lies right after the opening bracket at the start, and the closing bracket follows it |
| RubyString.AnchoredGroupSpec | lib/capsize/deployer.rb:102-104 | the anchored match fails exactly when the text does not start with the opening bracket or no closing bracket follows on the first line; otherwise the group stays on the first line and runs to its last closing bracket |
| RubyString.QuotedGroupSpec | lib/capsize/deployer.rb:114 | `/'(.*)'/` fails exactly when no two quotes share a line; otherwise the group starts after the leftmost quote that has a partner on its line and runs to its last partner |
| RubyString.EnclosedQuotedGroup | lib/capsize/deployer.rb:114 | for a one-line text enclosed in quotes the group is everything between the outer quotes |
| Casting.Lookup | lib/capsize/deployer.rb:106 | a hash lookup finds nothing exactly when the key is absent, and otherwise finds a stored pair for that key |
| Casting.Put | lib/capsize/deployer.rb:106 | storing under a present key keeps the key order; a new key is appended |
| Casting.LookupPut | lib/capsize/deployer.rb:106 | after storing `k => v`, `k` holds `v` and every other key holds what it held before |
| Casting.LookupInsertAll | lib/capsize/deployer.rb:105-108 | after the left-to-right fold every key holds the value of the last pair naming it |
| Casting.KeysInsertAll | lib/capsize/deployer.rb:105-108 | after the fold the keys appear in order of first occurrence |
| Casting.DistinctInsertAll | lib/capsize/deployer.rb:105-108 | the fold never stores a key twice |
| Casting.TypeCast | lib/capsize/deployer.rb:91-120 | `type_cast`, rule by rule; its readings are stated by the `TypeCastRules` rows below (`KeywordRules`, `ListRule`, `HashRule`, `SymbolRule`, `AtomRule`, `PaddingIgnored`) |
| Casting.CvsRootDefinition | lib/capsize/deployer.rb:122-124 | `cvs_root_defintion?`: starts with `:` and holds more than one `:`; its effect on a reading is stated by `TypeCastRules.SymbolRule` and `TypeCastRules.SymbolOnlyFromColon` |
| TypeCastRules.KeywordRules | lib/capsize/deployer.rb:92-101 | nil gives nil; after stripping, `nil` gives nil and `true`/`false` give the booleans, and only they give booleans |
| TypeCastRules.SymbolRule | lib/capsize/deployer.rb:110-124 | a value starting with `:` becomes the symbol of the rest when it holds exactly one `:`, otherwise it stays the string unchanged |
| TypeCastRules.SymbolOnlyFromColon | lib/capsize/deployer.rb:110-113 | a value gives a symbol exactly when, stripped, it starts with `:` and holds no other `:` |
| TypeCastRules.ListRule | lib/capsize/deployer.rb:102-103 | a value starting `[` with a closing `]` on its first line becomes a list with one element per comma-separated field of the bracket contents, each cast recursively, in order |
| TypeCastRules.ListArity | lib/capsize/deployer.rb:102-103 | `[]` gives the empty list; contents not ending in a comma give one element more than they hold commas |
| TypeCastRules.HashRule | lib/capsize/deployer.rb:104-108 | a value starting `{` with a closing `}` on its first line becomes a hash built from one pair per comma-separated field of the brace contents: the key is the cast of the field's first `=>` piece and the value the cast of its second piece, nil when there is none; the hash keys are distinct, in order of first occurrence, each holding the value of the last pair naming it |
| TypeCastRules.AtomRule | lib/capsize/deployer.rb:114-117 | any other value is a string: the leftmost greedy `'...'` group, else the `"..."` group, else the stripped text |
| TypeCastRules.SingleQuotedAtom | lib/capsize/deployer.rb:114-115 | a one-line value enclosed in single quotes reads as the text between them, whatever quotes it holds inside |
| TypeCastRules.PaddingIgnored | lib/capsize/deployer.rb:94 | whitespace around a value never changes its reading |
| CastExamples.ExampleTrue | lib/capsize/deployer.rb:96-97 | `true` reads as the boolean true |
| CastExamples.ExamplePaddedNil | lib/capsize/deployer.rb:94-101 | ` nil ` reads as nil |
| CastExamples.ExampleEmptyList | lib/capsize/deployer.rb:102-103 | `[]` reads as the empty list |
| ParameterPrinter.PrintParameter | lib/capsize/deployer.rb:126-147 | `print_parameter`; which form it picks is stated by `ParameterPrinter.PrintParameterForm` and `ParameterPrinter.EmptyValueQuoted` |
| ParameterPrinter.SetStringParameter | lib/capsize/deployer.rb:149-151 | the quoted `set` line, the value between single quotes with nothing escaped; that the quoted part of a one-line value reads back through `type_cast` unchanged is stated by `ParameterPrinter.QuotedValueReadsBack` |
| ParameterPrinter.SetNonStringParameter | lib/capsize/deployer.rb:153-155 | the verbatim `set` line; when it is chosen is stated by `ParameterPrinter.PrintParameterForm` |
| ParameterPrinter.LeadingDigits | lib/capsize/deployer.rb:134 | measures the run of digits at the start: all digits up to it, none right after it |
| ParameterPrinter.DigitRunCharacterised | lib/capsize/deployer.rb:134 | `/\A\d+\D+/` matches exactly when the value starts with a digit and is not all digits |
| ParameterPrinter.PrintParameterForm | lib/capsize/deployer.rb:126-147 | the result is nil exactly when the effective value (the prompt answer for a prompted parameter) is nil; keywords, values starting `:`, `%`, `[` or `{`, and all-digit values are written verbatim; everything else is quoted |
| ParameterPrinter.EmptyValueQuoted | lib/capsize/deployer.rb:141-146 | an empty stripped value renders as `set :name, ''` |
| ParameterPrinter.ExamplePort | lib/capsize/deployer.rb:141-143 | `8080` is written verbatim |
| ParameterPrinter.ExampleHost | lib/capsize/deployer.rb:144-145 | `example.com` is quoted |
| ParameterPrinter.ExampleDigitsThenLetter | lib/capsize/deployer.rb:134 | `3a` is quoted, despite its leading digit |
| ParameterPrinter.QuotedValueReadsBack | lib/capsize/deployer.rb:149-150 | a quoted one-line value reads back through `type_cast` as the very string written |
| ScriptWriter.AfterFlow | lib/capsize/deployer.rb:220-222 | the `after` hook line of a task; that it names exactly that task, and only hook lines do, is stated by `ScriptWriter.FlowTaskOfAfterFlow` and `ScriptWriter.AfterFlowOfFlowTask` |
| ScriptWriter.FlowTaskOfAfterFlow | lib/capsize/deployer.rb:220-222 | a hook line names exactly the task it was written for |
| ScriptWriter.AfterFlowOfFlowTask | lib/capsize/deployer.rb:220-222 | a line read as naming a task is the hook line of that task |
| ScriptWriter.FirstNamed | lib/capsize/deployer.rb:202 | finds the first parameter with the name, or nothing exactly when none has it |
| ScriptWriter.FindHostUser | lib/capsize/deployer.rb:201-203 | `find_host_user`; its failure and its value are stated by `ScriptWriter.FindHostUserSpec` |
| ScriptWriter.FindHostUserSpec | lib/capsize/deployer.rb:201-203 | fails exactly when the project has no `user` parameter, and otherwise gives the stored value of the first one |
| ScriptWriter.DecimalStringInjective | lib/capsize/deployer.rb:188 | distinct host ids have distinct decimal forms |
| ScriptWriter.IncludedRolesMembers | lib/capsize/deployer.rb:187-191 | a role is kept exactly when it is a stage role whose host id is not excluded |
| ScriptWriter.NothingExcluded | lib/capsize/deployer.rb:187-191 | with nothing excluded every role is kept, in order |
| ScriptWriter.ExcludingOneHost | lib/capsize/deployer.rb:188 | excluding one host id drops exactly the roles on that host |
| ScriptWriter.ZeroPaddedIdExcludesNothing | lib/capsize/deployer.rb:188 | an excluded id written with a leading zero, such as `"07"`, excludes no host |
| ScriptWriter.ExampleZeroPaddedId | lib/capsize/deployer.rb:187-191 | excluding `"07"` keeps the role on host 7 |
| ScriptWriter.ExampleOneOfTwoExcluded | lib/capsize/deployer.rb:187-191 | two roles on different hosts with the first host excluded leave only the second |
| ScriptWriter.RoleLine | lib/capsize/deployer.rb:189 | the `role` line of one role; which roles get one, and with which user, is stated by `ScriptWriter.WriteRoles` |
| ScriptWriter.PutParameters | lib/capsize/deployer.rb:174-176 | appends one line per parameter, its rendering or an empty line for nil, and keeps the lines before |
| ScriptWriter.PutRecipes | lib/capsize/deployer.rb:195-197 | appends each recipe body verbatim, in order, and keeps the lines before |
| ScriptWriter.PutFlows | lib/capsize/deployer.rb:178-180 | appends one `after` hook line per task, in order, and keeps the lines before |
| ScriptWriter.WriteDeploy | lib/capsize/deployer.rb:171-182 | the deploy file is the project parameter lines, then the hook for the stage, then the hooks for `deploy:started`, `deploy:updated`, `deploy:published` and `deploy:finished` |
| ScriptWriter.WriteRoles | lib/capsize/deployer.rb:187-191 | one `role` line per role whose host is not excluded, in order, naming the host user; fails exactly when such a role exists and the project has no `user` parameter |
| ScriptWriter.WriteStage | lib/capsize/deployer.rb:184-199 | the stage file is the role lines, then the stage parameter lines, then the recipe bodies; it fails exactly when writing a role line needs a missing `user` parameter |
| Deployer.HandleError | lib/capsize/deployer.rb:158-165 | the line `handle_error` logs; its two forms are stated by `Deployer.AuthenticationMessage` and `Deployer.OtherErrorLines` |
| Deployer.AuthenticationMessage | lib/capsize/deployer.rb:160-161 | an authentication failure is logged as its message in quotes after a fixed prefix, from which it can be read back |
| Deployer.OtherErrorLines | lib/capsize/deployer.rb:162-163 | any other error is logged as its message on the first line and one backtrace entry per following line |
| Deployer.RunError | lib/capsize/deployer.rb:60-80 | a run ends in no exception exactly when it reaches Capistrano and Capistrano does not raise |
| Deployer.Deployment.CompleteWithError | lib/capsize/deployer.rb:52 | the deployment is failed and one more completion is recorded |
| Deployer.Deployment.CompleteSuccessfully | lib/capsize/deployer.rb:55 | the deployment has succeeded and one more completion is recorded |
| Deployer.Deployer.New | lib/capsize/deployer.rb:37-44 | construction is refused, with the `validate` message, exactly for a new deployment without roles; otherwise the new deployer holds the deployment, with no task, no files written, output not redirected and nothing logged |
| Deployer.Deployer.Execute | lib/capsize/deployer.rb:60-80 | the run gives true exactly when no step raises and Capistrano completes without aborting; the first exception is logged once; output stays redirected exactly when Capistrano raised; a failed stage write leaves an empty stage file |
| Deployer.Deployer.InvokeTask | lib/capsize/deployer.rb:47-58 | the actions become the deployment's task, and the deployment is completed exactly once, as failed when the run gives false and successful otherwise; the log, the output redirection and the two files end as `execute!` leaves them |

## Left out

- Capistrano is not modelled. That covers `load_requirements`, `capsize_setup`, `after_stage_invokations` and the two `Capistrano::Application.invoke` calls. Their effect on one run is an `Environment` value: they complete, throw the abort sentinel or raise. Only a throw of `:abort_called_by_capistrano` carrying `:capistrano_abort` is modelled; a throw of that tag with any other value, or with none, makes `execute!` return true (lib/capsize/deployer.rb:75) and reads here as completing.
- The file system is not modelled (`FileUtils.mkdir_p`, `rooted`, `File.open`). A file is the sequence of lines handed to `puts`. A failure to create the project directory is the one file-system error the `Environment` carries; errors opening a file are not modelled.
- `puts` is not modelled byte for byte. A line that already ends in a newline gets no second one. A line that holds newlines spans several lines of the file.
- Process-wide output is reduced to one flag saying whether output is redirected. That leaves out the `StringIO` browser log, `$stdout.sync`, `ENV['deployment_id']` and the fact that `close_output` resets to `STDOUT`.
- Logging is reduced to the messages logged at the important level. The `info` lines announcing each file, the logger's level and the `Capsize::Logger` sink are not modelled.
- `save_pid` is not modelled: it deals with process identity and persistence.
- Database records are plain immutable values. `find_by_name` is modelled as taking the first match in sequence order. The database's row order and the case rules of its collation are not modelled.
- The in-place effect of `strip!` on the caller's string is not modelled: stripping is a pure function.
- `prompt_config` is a map, so a prompted parameter without an answer renders nil. A deployment whose `prompt_config` is itself nil would raise; that case is not modelled.
- Deployer.MissingUserError: the `NoMethodError` from the missing `user` parameter is given a fixed message and an empty backtrace. The real backtrace comes from the interpreter.
- Deployer.Deployer.Execute: states the lengths of the two files and the empty stage file after a failed write. Their line-by-line content is stated by `ScriptWriter.WriteDeploy` and `ScriptWriter.WriteStage`, which `Execute` calls.
- Ruby Hash keys are compared with `eql?`, which ignores the order of a hash's entries. Keys here are compared structurally. The two agree for every key `type_cast` can build, because a key holds no comma, so any hash inside it has at most one entry.
- Exception classes are reduced to a tag: `Net::SSH::AuthenticationFailed` or any other.
