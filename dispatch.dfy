/**
 * What happens after the palette loop ends: the chosen title, and for two
 * templates one line typed by the operator, become the argv handed to the
 * `git` executable.
 */
module Dispatcher {
  import opened Wrappers
  import opened GoStrings
  import opened Catalog

  datatype CommandError = EmptyCommand

  /** The indexing of `parts[1]`, and of `parts[2]` when `parts[1]` is
      `commit`, stays in range. A command with no words at all passes: it
      is turned away before any indexing. */
  predicate WellFormedCommand(command: string) {
    var parts := Fields(command);
    parts == [] || (|parts| >= 2 && (parts[1] == "commit" ==> |parts| >= 3))
  }

  /** The argv (without the executable name) that `executeGitCommand`
      hands to `git`, or the error it returns before starting anything. */
  function BuildArgv(command: string): (r: Result<seq<string>, CommandError>)
    requires WellFormedCommand(command)
    ensures r.Failure? <==> Fields(command) == []
  {
    var parts := Fields(command);
    if |parts| == 0 then Failure(EmptyCommand)
    else if parts[1] == "commit" && parts[2] == "-m" then
      Success(["commit", "-m", Join(parts[3..], " ")])
    else Success(parts[1..])
  }

  /** The words after `git commit -m`, re-joined with single spaces. */
  function CommitMessageOf(parts: seq<string>): string
    requires |parts| >= 3
  {
    Join(parts[3..], " ")
  }

  /** A command spelled as whitespace-free words joined by single spaces,
      whose second and third words are not `commit -m`, runs with exactly
      its words after the first, in order. */
  lemma BuildArgvPlain(ts: seq<string>)
    requires AllTokens(ts) && |ts| >= 2
    requires ts[1] == "commit" ==> |ts| >= 3 && ts[2] != "-m"
    ensures WellFormedCommand(Join(ts, " "))
    ensures BuildArgv(Join(ts, " ")) == Success(ts[1..])
  {
    FieldsOfJoin(ts);
  }

  /** A `git commit -m` command runs with three arguments; the message is
      one argument made of the remaining words joined by single spaces: it
      keeps every word, collapses whitespace runs, and is empty exactly when
      no word follows `-m`. */
  lemma BuildArgvCommit(command: string)
    requires WellFormedCommand(command)
    requires var parts := Fields(command);
      parts != [] && parts[1] == "commit" && parts[2] == "-m"
    ensures var parts := Fields(command);
      BuildArgv(command) == Success(["commit", "-m", CommitMessageOf(parts)])
      && Fields(CommitMessageOf(parts)) == parts[3..]
      && SingleSpaced(CommitMessageOf(parts))
      && (CommitMessageOf(parts) == "" <==> |parts| == 3)
  {
    var parts := Fields(command);
    var rest := parts[3..];
    assert AllTokens(rest);
    FieldsOfJoin(rest);
    JoinOfTokensSingleSpaced(rest);
    if |rest| > 0 {
      assert Join(rest, " ") != "" by {
        if |rest| > 1 {
          assert Join(rest, " ") == rest[0] + " " + Join(rest[1..], " ");
        }
      }
    }
  }

  /** The commit argv splits into `commit`, `-m` and the message's words. */
  lemma CommitArgvFields(m: string)
    ensures Fields(Join(["commit", "-m", m], " ")) == ["commit", "-m"] + Fields(m)
  {
    var words := ["commit", "-m"];
    assert Graphic(words[0]) && Graphic(words[1]);
    var argv := ["commit", "-m", m];
    assert argv[1..] == ["-m", m] && argv[1..][1..] == [m];
    assert Join(argv[1..], " ") == "-m" + " " + m;
    assert Join(words, " ") == "commit" + " " + "-m";
    assert Join(argv, " ") == Join(words, " ") + " " + m;
    SplicedFields(words, m);
  }

  /** Whatever branch is taken, splitting the argv again on whitespace gives
      back the command's words after the first: no word is lost or invented. */
  lemma {:induction false} ArgvKeepsWords(command: string)
    requires WellFormedCommand(command) && Fields(command) != []
    ensures BuildArgv(command).Success?
    ensures Fields(Join(BuildArgv(command).value, " ")) == Fields(command)[1..]
  {
    var parts := Fields(command);
    if parts[1] == "commit" && parts[2] == "-m" {
      BuildArgvCommit(command);
      CommitArgvFields(CommitMessageOf(parts));
      assert parts[1..] == ["commit", "-m"] + parts[3..];
    } else {
      FieldsOfJoin(parts[1..]);
    }
  }

  // ---------------------------------------------------------------------
  // Splicing the operator's line into a template (main.go:131, 141)
  // ---------------------------------------------------------------------

  /** A template followed by a space and an argument splits into the
      template's words followed by the argument's words. */
  lemma SplicedFields(words: seq<string>, arg: string)
    requires AllTokens(words) && words != []
    ensures Fields(Join(words, " ") + " " + arg) == words + Fields(arg)
  {
    FieldsOfJoin(words);
    FieldsSplitAtSpace(Join(words, " "), ' ', arg);
  }

  /** The two prompt templates, `main`'s format strings up to `%s`. */
  const CommitTemplate: string := "git commit -m "
  const CheckoutTemplate: string := "git checkout -b "

  const CommitWords: seq<string> := ["git", "commit", "-m"]
  const CheckoutWords: seq<string> := ["git", "checkout", "-b"]

  lemma CommitTemplateSpelling()
    ensures AllTokens(CommitWords) && CommitTemplate == Join(CommitWords, " ") + " "
  {
    assert Graphic(CommitWords[0]) && Graphic(CommitWords[1]) && Graphic(CommitWords[2]);
    assert Join(CommitWords[2..], " ") == "-m";
    assert Join(CommitWords[1..], " ") == "commit" + " " + "-m";
  }

  lemma CheckoutTemplateSpelling()
    ensures AllTokens(CheckoutWords) && CheckoutTemplate == Join(CheckoutWords, " ") + " "
  {
    assert Graphic(CheckoutWords[0]) && Graphic(CheckoutWords[1]) && Graphic(CheckoutWords[2]);
    assert Join(CheckoutWords[2..], " ") == "-b";
    assert Join(CheckoutWords[1..], " ") == "checkout" + " " + "-b";
  }

  /** A prompt template followed by an argument splits into the template's
      three words and then the argument's own words, and is well formed. */
  lemma TemplateFields(template: string, arg: string)
    requires template == CommitTemplate || template == CheckoutTemplate
    ensures Fields(template + arg)
            == (if template == CommitTemplate then CommitWords else CheckoutWords) + Fields(arg)
    ensures WellFormedCommand(template + arg)
  {
    if template == CommitTemplate {
      CommitTemplateSpelling();
      SplicedFields(CommitWords, arg);
    } else {
      CheckoutTemplateSpelling();
      SplicedFields(CheckoutWords, arg);
    }
  }

  // ---------------------------------------------------------------------
  // Post-loop resolution (main.go:120-148)
  // ---------------------------------------------------------------------

  /** The outcome of the one blocking line read. */
  datatype ReadOutcome = Line(text: string) | ReadFailed

  /** Which argument the operator is asked for. */
  datatype Prompt = CommitMessage | BranchName

  datatype Resolution =
    | NoAction
      /** The line read failed: `main` returns before running anything. */
    | ReadAborted(askedFor: Prompt)
      /** `command` is passed to `executeGitCommand`, which builds `argv`;
          `reportsError` tells whether a failure of that call is printed. */
    | Execute(prompt: Option<Prompt>, command: string,
              argv: Result<seq<string>, CommandError>, reportsError: bool)

  const CommitMarker: string := "commit -m"
  const CheckoutMarker: string := "checkout -b"

  predicate HasMarker(choice: string) {
    Contains(choice, CommitMarker) || Contains(choice, CheckoutMarker)
  }

  /** `main` indexes into the choice's own words only when it carries no
      marker; those indexings must stay in range. */
  predicate Dispatchable(choice: string) {
    choice == "" || HasMarker(choice) || WellFormedCommand(choice)
  }

  /** The decision `main` takes once the palette has returned `choice`,
      given what the line read (performed only for a marked choice) yields. */
  function Resolve(choice: string, read: ReadOutcome): (r: Resolution)
    requires Dispatchable(choice)
    ensures r.NoAction? <==> choice == ""
    ensures r.ReadAborted? <==> choice != "" && HasMarker(choice) && read.ReadFailed?
    ensures r.Execute? ==> (r.reportsError <==> r.prompt.None?)
    ensures r.Execute? ==> (r.argv.Failure? <==> Fields(r.command) == [])
  {
    if choice == "" then NoAction
    else if Contains(choice, CommitMarker) then
      match read
      case ReadFailed => ReadAborted(CommitMessage)
      case Line(text) =>
        var message := TrimSpace(text);
        var command := CommitTemplate + message;
        TemplateFields(CommitTemplate, message);
        // the error of this call lands in a variable local to the branch
        Execute(Some(CommitMessage), command, BuildArgv(command), false)
    else if Contains(choice, CheckoutMarker) then
      match read
      case ReadFailed => ReadAborted(BranchName)
      case Line(text) =>
        var branchName := TrimSpace(text);
        var command := CheckoutTemplate + branchName;
        TemplateFields(CheckoutTemplate, branchName);
        Execute(Some(BranchName), command, BuildArgv(command), false)
    else
      Execute(None, choice, BuildArgv(choice), true)
  }

  /** A marked choice asks for exactly one line, and `commit -m` wins when
      both markers are present; an unmarked choice never looks at the read. */
  lemma ResolvePrompt(choice: string, read: ReadOutcome, other: ReadOutcome)
    requires Dispatchable(choice) && choice != ""
    ensures var r := Resolve(choice, read);
      (r.ReadAborted? ==> r.askedFor == (if Contains(choice, CommitMarker) then CommitMessage else BranchName))
      && (r.Execute? ==> r.prompt == (if Contains(choice, CommitMarker) then Some(CommitMessage)
                                     else if Contains(choice, CheckoutMarker) then Some(BranchName)
                                     else None))
    ensures !HasMarker(choice) ==> Resolve(choice, read) == Resolve(choice, other)
  {
  }

  /** The argv built for `git commit -m` followed by a trimmed line. */
  lemma CommitArgv(text: string)
    ensures var command := CommitTemplate + TrimSpace(text);
      WellFormedCommand(command)
      && BuildArgv(command) == Success(["commit", "-m", Join(Fields(text), " ")])
  {
    var message := TrimSpace(text);
    var command := CommitTemplate + message;
    TemplateFields(CommitTemplate, message);
    var parts := Fields(command);
    assert parts[1] == "commit" && parts[2] == "-m";
    assert parts[3..] == Fields(text);
  }


  /** `git commit -m`: argv holds the typed line as one message argument,
      with its whitespace runs collapsed; the line comes back unchanged
      exactly when, once trimmed, it is already single-spaced, and an
      all-blank line gives an empty final argument. No execution error is
      reported. */
  lemma ResolveCommit(choice: string, text: string)
    requires Contains(choice, CommitMarker)
    ensures var r := Resolve(choice, Line(text));
      r.Execute? && !r.reportsError
      && r.command == CommitTemplate + TrimSpace(text)
      && r.argv == Success(["commit", "-m", Join(Fields(text), " ")])
    ensures var message := Join(Fields(text), " ");
      Fields(message) == Fields(text)
      && (message == TrimSpace(text) <==> SingleSpaced(TrimSpace(text)))
      && (message == "" <==> AllSpace(text))
  {
    CommitArgv(text);
    var message := Join(Fields(text), " ");
    FieldsJoinFields(text);
    JoinFieldsIdentityIff(TrimSpace(text));
    NoFieldsIffAllSpace(text);
    if Fields(text) != [] {
      assert IsToken(Fields(text)[0]);
      FieldsOfJoin(Fields(text));
      assert message != "";
    }
  }

  lemma DropFirstWord(pre: seq<string>, rest: seq<string>)
    requires pre != []
    ensures (pre + rest)[1..] == pre[1..] + rest
  {
  }

  /** A command whose words are `git checkout -b` and then `rest` runs with
      `checkout -b` and then `rest`. */
  lemma CheckoutFormArgv(command: string, rest: seq<string>)
    requires Fields(command) == ["git", "checkout", "-b"] + rest
    ensures WellFormedCommand(command)
    ensures BuildArgv(command) == Success(["checkout", "-b"] + rest)
  {
    var parts := Fields(command);
    assert parts[1] == "checkout";
    assert parts[1][1] != "commit"[1];
    DropFirstWord(["git", "checkout", "-b"], rest);
  }

  /** The argv built for `git checkout -b` followed by a trimmed line. */
  lemma CheckoutArgv(text: string)
    ensures var command := CheckoutTemplate + TrimSpace(text);
      WellFormedCommand(command)
      && BuildArgv(command) == Success(["checkout", "-b"] + Fields(text))
  {
    var name := TrimSpace(text);
    TemplateFields(CheckoutTemplate, name);
    CheckoutFormArgv(CheckoutTemplate + name, Fields(text));
  }

  /** `git checkout -b`: the trimmed branch line is split on whitespace
      (see `BranchWords`). No execution error is reported. */
  lemma ResolveCheckout(choice: string, text: string)
    requires !Contains(choice, CommitMarker) && Contains(choice, CheckoutMarker)
    ensures var r := Resolve(choice, Line(text));
      r.Execute? && !r.reportsError
      && r.command == CheckoutTemplate + TrimSpace(text)
      && r.argv == Success(["checkout", "-b"] + Fields(text))
  {
    CheckoutArgv(text);
  }

  /** The branch name becomes one argument only when, once trimmed, it is a
      single word; a name with inner blanks becomes several arguments and a
      blank line none. */
  lemma BranchWords(text: string)
    ensures Fields(text) == [TrimSpace(text)] <==> IsToken(TrimSpace(text))
    ensures !AllSpace(text) && !IsToken(TrimSpace(text)) ==> |Fields(text)| >= 2
  {
    FieldsSingletonIff(TrimSpace(text));
    if !AllSpace(text) && !IsToken(TrimSpace(text)) {
      TrimmedNonToken(text);
    }
  }

  /** The plain branch of `Resolve`, for a choice whose words are known. */
  lemma PlainCommandArgv(t: string, words: seq<string>, read: ReadOutcome)
    requires !HasMarker(t) && Fields(t) == words && |words| >= 2
    requires words[1] == "commit" ==> |words| >= 3 && words[2] != "-m"
    ensures Dispatchable(t) && Resolve(t, read) == Execute(None, t, Success(words[1..]), true)
  {
    assert t != [] by { assert Fields(t) != []; }
  }

  /** An unmarked choice made of single-spaced words, with no `commit -m`
      as second and third words, runs with its words after the first, and
      an execution error is reported. */
  lemma ResolvePlain(ts: seq<string>, read: ReadOutcome)
    requires AllTokens(ts) && |ts| >= 2
    requires ts[1] == "commit" ==> |ts| >= 3 && ts[2] != "-m"
    requires !HasMarker(Join(ts, " "))
    ensures var choice := Join(ts, " ");
      Dispatchable(choice) && Resolve(choice, read) == Execute(None, choice, Success(ts[1..]), true)
  {
    var choice := Join(ts, " ");
    BuildArgvPlain(ts);
    FieldsOfJoin(ts);
    PlainCommandArgv(choice, ts, read);
  }

  // ---------------------------------------------------------------------
  // The catalog feeds only well-formed commands
  // ---------------------------------------------------------------------

  /** Every catalog title can be dispatched without an index going out of
      range, and its first word is `git`. */
  lemma CatalogDispatchable(i: nat)
    requires i < |Items|
    ensures WellFormedCommand(Items[i].title) && Dispatchable(Items[i].title)
    ensures Fields(Items[i].title)[0] == "git"
  {
    TitleShape(i);
  }

  /** An unmarked catalog title runs with its words after `git`, and an
      execution error is reported. */
  lemma CatalogPlainArgv(i: nat, read: ReadOutcome)
    requires i < |Items| && i != 2 && i != 6
    ensures var t := Items[i].title;
      Dispatchable(t) && Resolve(t, read) == Execute(None, t, Success(TitleWords[i][1..]), true)
  {
    TitleShape(i);
    TitleMarkers(i);
    TitleFields(i);
    PlainCommandArgv(Items[i].title, TitleWords[i], read);
  }
}
