# april — a model of the git command palette

`april` is a terminal palette that offers ten git command templates. The
operator picks one with the keyboard, and the program then runs `git` with the
words of that template. Two templates, `git commit -m` and `git checkout -b`,
first ask for one typed line: a commit message or a branch name. This project
models in Dafny the decisions the program makes itself and proves properties
about them:

- the catalog of templates (`Catalog`, catalog.dfy);
- how a command line becomes the argv given to `git`, the work of
  `executeGitCommand` (`Dispatcher.BuildArgv`, dispatch.dfy);
- what `main` does with the chosen title and the line it reads once the
  palette has quit (`Dispatcher.Resolve`, dispatch.dfy);
- the palette's `Update` transition and the quitting rule of `View`
  (`Palette`, palette.dfy).

These parts rely on Go's `strings.Fields`, `strings.Join`,
`strings.TrimSpace` and `strings.Contains`. `GoStrings` (strings.dfy) defines
them over strings of Unicode scalar values. Whitespace is Go's
`unicode.IsSpace`. `Wrappers` (wrappers.dfy) holds `Option` and `Result`.

The list widget is a library collaborator. The model never looks inside it:
`Palette.ListWidget` stands for it and gives its five operations as function
values over an abstract state type:

- the selected item;
- cursor down;
- cursor up;
- set size;
- its own update.

`Palette.Run` feeds a sequence of messages to `Update` until `Update` itself
returns the quit command. This is how the model shows that every choice reaching `main` can be
dispatched without an index going out of range.

### Behaviour of main.go worth knowing

- **`enter` does not set `quitting`.** Choosing an item records the title and
  quits, but `quitting` keeps its value. The final view is therefore still the
  list, not `quit april` (`Palette.ViewAfterSelect`).
- **`ctrl+c` keeps `choice`.** It does not clear it (`Palette.UpdateCtrlC`).
- **Commit messages are re-split.** The message is spliced into
  `git commit -m <message>`, and `executeGitCommand` splits that again on
  whitespace. So the message reaches git as one argument, but with every run
  of whitespace collapsed to a single space (`Dispatcher.ResolveCommit`).
- **Branch names can fragment.** A branch name with inner blanks becomes
  several arguments (`Dispatcher.ResolveCheckout`, `Dispatcher.BranchWords`).
- **Errors from the commit and checkout branches are never printed.** In
  those branches `err` is redeclared by `:=` inside the inner block. The error
  from `executeGitCommand` therefore never reaches the test at main.go:146.
  Only the plain branch reports one (`Resolution.Execute.reportsError`).

## Model

| member | source | states |
|---|---|---|
| GoStrings.Fields | main.go:59 | Every field `strings.Fields` returns is non-empty and free of whitespace |
| GoStrings.FieldsOfJoin | main.go:65 | Joining tokens with single spaces and splitting the result again gives the same tokens back, in order |
| GoStrings.JoinFieldsIdentityIff | main.go:65 | Re-joining the fields of a string with single spaces gives back that exact string if and only if it has no leading or trailing blank and every blank in it is a lone ASCII space |
| GoStrings.TrimSpace | main.go:130 | The result is a contiguous slice of the line with only whitespace before and after it, and it neither starts nor ends with whitespace: exactly the outer whitespace is removed. It is empty exactly when the line is all whitespace, and it has the same fields as the line |
| GoStrings.Join | main.go:65 | No contract of its own: `strings.Join`; what it means for `Fields` is stated by `GoStrings.FieldsOfJoin` and `GoStrings.JoinFieldsIdentityIff` |
| GoStrings.Contains | main.go:122-132 | No contract of its own: `strings.Contains` as "the marker occurs at some offset"; used through `Catalog.TitleMarkers` and `GoStrings.NotContainsByMissingChar` |
| GoStrings.NotContainsByMissingChar | main.go:122-132 | A string lacking one of the marker's characters does not contain the marker |
| GoStrings.FieldsOfNonToken | main.go:140-141 | A string with non-blank ends that is not a single token has at least two fields |
| GoStrings.FieldsSingletonIff | main.go:140-141 | A string splits into just itself exactly when it is one non-empty, whitespace-free token |
| Catalog.Items | main.go:32-43 | A constant, not a member with a contract: the ten entries of `initialModel`, in order, titles and descriptions verbatim; stated about by the `Catalog` lemmas below |
| Catalog.TitleIsJoin | main.go:32-43 | Each title is its listed words joined by single spaces |
| Catalog.TitleFields | main.go:32-43 | Each of the ten titles splits into the words listed for it |
| Catalog.TitleShape | main.go:32-43 | Every title has at least two words and starts with `git`; only `git commit -m` has `commit` as second word, and that title has a third word, `-m` |
| Catalog.TitleMarkers | main.go:32-43 | Only `git commit -m` contains the marker `commit -m`, and only `git checkout -b` contains `checkout -b` |
| Dispatcher.BuildArgv | main.go:59-71 | The empty-command error comes exactly when the command has no words; the precondition is exactly what keeps the `parts[1]` and `parts[2]` reads in range |
| Dispatcher.BuildArgvPlain | main.go:59-71 | For any whitespace-free words `ts` (at least two, and not `commit -m` as second and third), the command `ts` joined by spaces is well formed and runs with exactly `ts[1..]` |
| Dispatcher.BuildArgvCommit | main.go:64-65 | A `_ commit -m …` command gets argv `commit`, `-m` and one message argument. The message has exactly the remaining words and is single-spaced. It is empty exactly when no word follows `-m` |
| Dispatcher.ArgvKeepsWords | main.go:59-71 | On every branch, splitting the argv again gives back the command's words after the first: nothing is lost or invented |
| Dispatcher.TemplateFields | main.go:131-141 | `git commit -m <line>` and `git checkout -b <line>` split into the template's three words and then the line's own words, and are well formed |
| Dispatcher.Resolve | main.go:120-148 | No action exactly for an empty choice. An abort exactly when a marked choice meets a failed read. An execution error is reported exactly when no line was asked for. The argv is an error exactly when the command has no words |
| Dispatcher.ResolvePrompt | main.go:122-144 | A marked choice asks for one line, and `commit -m` takes precedence over `checkout -b`; an unmarked choice does not depend on the read at all |
| Dispatcher.CommitArgv | main.go:130-131 | The command built from a trimmed commit line is well formed, and its argv is `commit`, `-m` and the line's words joined by single spaces |
| GoStrings.NoFieldsIffAllSpace | main.go:130 | A line has no words exactly when it is all whitespace |
| Dispatcher.ResolveCommit | main.go:122-131 | `commit -m` with a line runs `commit -m <message>` without reporting errors. The message keeps the line's words. It equals the trimmed line exactly when that line is already single-spaced. It is empty exactly when the line is blank |
| Dispatcher.CheckoutArgv | main.go:140-141 | The command built from a trimmed branch line is well formed, and its argv is `checkout`, `-b` and then every word of the line |
| Dispatcher.ResolveCheckout | main.go:132-141 | `checkout -b` with a line runs `checkout -b` followed by the line's words, without reporting errors |
| Dispatcher.BranchWords | main.go:140-141 | The branch name is one argument exactly when the trimmed line is a single token; a line that is neither blank nor one token gives at least two arguments (a blank line gives none, by `GoStrings.NoFieldsIffAllSpace`) |
| Dispatcher.ResolvePlain | main.go:142-148 | An unmarked choice spelled as words `ts` joined by spaces (not `_ commit -m …`) can be dispatched and runs as it stands with argv `ts[1..]`, without asking for a line, and its execution error is reported |
| Dispatcher.CatalogDispatchable | main.go:32-43 | Every catalog title is well formed, so dispatching it keeps every index in range; its first word is `git` |
| Dispatcher.CatalogPlainArgv | main.go:142-143 | Each unmarked catalog title runs with its own words after `git`, and its error is reported |
| Palette.InitialModel | main.go:49-51 | The palette starts with no choice and not quitting |
| Palette.Update | main.go:77-103 | No contract of its own: `model.Update` over a value copy of the model; its behaviour is stated by the `Palette.Update…` lemmas below |
| Palette.View | main.go:105-110 | No contract of its own: `model.View`; stated by `Palette.ViewAfterCtrlC` and `Palette.ViewAfterSelect` |
| Palette.Run | main.go:113-114 | No contract of its own: stands in for `p.Run`, feeding messages to `Update` until `Update` returns `Quit`; stated about by `Palette.RunChoiceDispatchable` and `Palette.AbortAtStart` |
| Palette.UpdateCtrlC | main.go:81-83 | `ctrl+c` sets `quitting`, keeps `choice` and the list, and quits without forwarding the key |
| Palette.UpdateEnterSelected | main.go:88-93 | `enter` on a selected item sets `choice` to its title, keeps `quitting` and the list, and quits without forwarding |
| Palette.UpdateEnterNothing | main.go:88-102 | `enter` with nothing selected changes neither field and hands the key to the list |
| Palette.UpdateCursorKeys | main.go:84-102 | `ctrl+n` and `ctrl+p` move the cursor, then forward the key; the list's new state and its command are what the list's update returns on the moved cursor; `choice` and `quitting` are unchanged |
| Palette.UpdateResize | main.go:95-102 | A resize sets the list size to the window minus the frame, without clamping, then forwards the message; `choice` and `quitting` are unchanged |
| Palette.UpdateOther | main.go:77-102 | Any other key or message goes to the list alone |
| Palette.UpdateQuitsOnDecision | main.go:77-103 | The palette quits exactly on `ctrl+c` or on `enter` with a selection. Only the latter changes `choice`, and to the selected title. `quitting` is never cleared, and only `ctrl+c` sets it |
| Palette.ViewAfterCtrlC | main.go:105-110 | After `ctrl+c` the view is `quit april` and a newline, whatever the list |
| Palette.ViewAfterSelect | main.go:88-110 | After choosing an item the view still renders the list |
| Palette.UpdateKeepsChoiceValid | main.go:88-92 | If the list only selects catalog items, every transition keeps `choice` empty or a catalog title |
| Palette.RunChoiceDispatchable | main.go:113-120 | If the list only selects catalog items and the run starts from a valid choice, then whatever messages arrive, the final choice is empty or a catalog title, so `main` can dispatch it without an index going out of range |
| Palette.AbortAtStart | main.go:81-83 | Pressing `ctrl+c` first ends the run quitting with no choice, and `main` then does nothing |

## Left out

- **The event loop:** the bubbletea program loop, `tea.NewProgram`, `p.Run`
  and the alternate screen (main.go:113-118). This is an external runtime.
  `Palette.Run` stands in for it as a plain fold over a message sequence that
  stops when `Update` itself returns the quit command. A quit command
  produced by the list widget, which `Update` passes on as
  `Palette.Cmd.FromList`, does not stop `Palette.Run`.
  `Palette.RunChoiceDispatchable` still holds for every prefix at which the
  runtime might stop, because `Palette.ChoiceValid` holds after every step
  (`Palette.UpdateKeepsChoiceValid`). The start-up failure path and its
  `os.Exit(1)` are not modelled.
- **The list widget's internals:** cursor clamping, filtering, search and
  its `View`. The widget is opaque, so nothing is claimed about where the
  cursor lands.
- **Rendering:** lipgloss styling and the value of
  `docStyle.GetFrameSize()`. The frame sizes are parameters of `Update`, and
  the rendered list is a parameter of `View`.
- **Process execution:** `exec.Command`, `cmd.Run` and the Stdout/Stderr
  wiring. Only the argv handed to them is modelled. The error `git` itself
  may return is not modelled. `reportsError` says only whether such an error
  would be printed.
- **Terminal I/O:** the stdin reads and all `fmt` output. A read is an input
  outcome, `Line(text)` or `ReadFailed`. A final line without a newline
  counts as `ReadFailed`, because `ReadString` then returns an error.
- **The `m.(model)` type assertion** at main.go:120. The model always holds
  the palette's own model, so the assertion always succeeds.
- **Byte-level encoding:** UTF-8 details. Strings are sequences of Unicode
  scalar values, and invalid UTF-8 is not represented.
- **The list's own command:** what the list widget's `Update` returns is
  passed through untouched (`Palette.Cmd.FromList`) and never interpreted.
- **`Init`:** it returns no command and is not modelled.
- **`Item.FilterValue`, `Item.Title`, `Item.Description`:** only the widget
  uses these accessors.
