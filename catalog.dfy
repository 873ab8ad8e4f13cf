/** The fixed, ordered list of git command templates the palette offers. */
module Catalog {
  import opened GoStrings

  /** One palette entry: the title doubles as the command line to run. */
  datatype Item = Item(title: string, description: string)

  const Items: seq<Item> := [
    Item("git status", "show working tree status"),
    Item("git add .", "add all changes to staging"),
    Item("git commit -m", "commit staged changes"),
    Item("git push", "push commits to remote"),
    Item("git pull", "pull changes from remote"),
    Item("git branch", "list branches"),
    Item("git checkout -b", "create and switch to new branch"),
    Item("git checkout main", "switch to main branch"),
    Item("git log", "show commit logs"),
    Item("git fetch", "download objects and refs from remote")
  ]

  /** The whitespace-separated words of each title, in catalog order. */
  const TitleWords: seq<seq<string>> := [
    ["git", "status"],
    ["git", "add", "."],
    ["git", "commit", "-m"],
    ["git", "push"],
    ["git", "pull"],
    ["git", "branch"],
    ["git", "checkout", "-b"],
    ["git", "checkout", "main"],
    ["git", "log"],
    ["git", "fetch"]
  ]

  predicate IsTitle(s: string) {
    exists i :: 0 <= i < |Items| && Items[i].title == s
  }

  /** Printable ASCII other than the space: enough to rule out whitespace. */
  predicate Graphic(w: string) {
    w != [] && forall k :: 0 <= k < |w| ==> '!' <= w[k] <= '~'
  }

  lemma GraphicWords(i: nat, j: nat)
    requires i < |TitleWords| && j < |TitleWords[i]|
    ensures Graphic(TitleWords[i][j])
  {
  }

  lemma WordsAreTokens(i: nat)
    requires i < |TitleWords|
    ensures AllTokens(TitleWords[i])
  {
    forall j | 0 <= j < |TitleWords[i]|
      ensures IsToken(TitleWords[i][j])
    {
      GraphicWords(i, j);
    }
  }

  // Facts about the literal titles and words are proved over ranges of
  // indices (Low, Mid, High) so that each proof compares only a few of the
  // string literals at once; `TitleIsJoin` and `TitleShape` combine them.

  lemma TitleIsJoinLow(i: nat)
    requires i < 5
    ensures Items[i].title == Join(TitleWords[i], " ")
  {
  }

  lemma TitleIsJoinMid(i: nat)
    requires 5 <= i < 8
    ensures Items[i].title == Join(TitleWords[i], " ")
  {
  }

  lemma TitleIsJoinHigh(i: nat)
    requires 8 <= i < |Items|
    ensures Items[i].title == Join(TitleWords[i], " ")
  {
  }

  /** Each title is its words joined by single spaces. */
  lemma TitleIsJoin(i: nat)
    requires i < |Items|
    ensures Items[i].title == Join(TitleWords[i], " ")
  {
    if i < 5 { TitleIsJoinLow(i); } else if i < 8 { TitleIsJoinMid(i); } else { TitleIsJoinHigh(i); }
  }

  /** Each title splits into the words listed for it in `TitleWords`. */
  lemma TitleFields(i: nat)
    requires i < |Items|
    ensures Fields(Items[i].title) == TitleWords[i]
  {
    TitleIsJoin(i);
    WordsAreTokens(i);
    FieldsOfJoin(TitleWords[i]);
  }

  lemma WordsShapeLow(i: nat)
    requires i < 5
    ensures |TitleWords[i]| >= 2 && TitleWords[i][0] == "git"
    ensures TitleWords[i][1] == "commit" <==> i == 2
  {
  }

  lemma WordsShapeHigh(i: nat)
    requires 5 <= i < |TitleWords|
    ensures |TitleWords[i]| >= 2 && TitleWords[i][0] == "git"
    ensures TitleWords[i][1] != "commit"
  {
  }

  /** Every title starts with the word `git` and has at least one more word;
      `commit` as second word occurs only in `git commit -m` (index 2), which
      has a third. */
  lemma TitleShape(i: nat)
    requires i < |Items|
    ensures var p := Fields(Items[i].title);
      |p| >= 2 && p[0] == "git"
      && (p[1] == "commit" <==> i == 2)
      && (p[1] == "commit" ==> |p| == 3 && p[2] == "-m")
  {
    TitleFields(i);
    if i < 5 { WordsShapeLow(i); } else { WordsShapeHigh(i); }
  }

  lemma NoDash(i: nat)
    requires i < |Items| && i != 2 && i != 6
    ensures forall j :: 0 <= j < |Items[i].title| ==> Items[i].title[j] != '-'
  {
  }

  lemma CommitTitleMarkers()
    ensures Contains(Items[2].title, "commit -m")
    ensures !Contains(Items[2].title, "checkout -b")
  {
    assert OccursAt(Items[2].title, "commit -m", 4);
    NotContainsByMissingChar(Items[2].title, "checkout -b", 4);
  }

  lemma CheckoutTitleMarkers()
    ensures Contains(Items[6].title, "checkout -b")
    ensures !Contains(Items[6].title, "commit -m")
  {
    assert OccursAt(Items[6].title, "checkout -b", 4);
    NotContainsByMissingChar(Items[6].title, "commit -m", 2);
  }

  lemma OtherTitleMarkers(i: nat)
    requires i < |Items| && i != 2 && i != 6
    ensures !Contains(Items[i].title, "commit -m")
    ensures !Contains(Items[i].title, "checkout -b")
  {
    NoDash(i);
    NotContainsByMissingChar(Items[i].title, "commit -m", 7);
    NotContainsByMissingChar(Items[i].title, "checkout -b", 9);
  }

  /** Index 2 is the only title holding the marker `commit -m`, index 6 the
      only one holding `checkout -b`. */
  lemma TitleMarkers(i: nat)
    requires i < |Items|
    ensures Contains(Items[i].title, "commit -m") <==> i == 2
    ensures Contains(Items[i].title, "checkout -b") <==> i == 6
  {
    if i == 2 {
      CommitTitleMarkers();
    } else if i == 6 {
      CheckoutTitleMarkers();
    } else {
      OtherTitleMarkers(i);
    }
  }
}
