/** The two notions of white space in this project, by code point: Python's str.strip() in
    the workflow validator and Go's strings.TrimSpace in the dump filter. */
module Blanks {
  import WorkflowValidator
  import DumpFilter

  const GO_SPACES: set<int> := {
    9, 10, 11, 12, 13, 32, 133, 160, 5760,
    8192, 8193, 8194, 8195, 8196, 8197, 8198, 8199, 8200, 8201, 8202, 8232, 8233, 8239, 8287, 12288 }

  /** Python adds the four separators U+001C to U+001F. */
  const PYTHON_SPACES: set<int> := GO_SPACES + {28, 29, 30, 31}

  lemma PythonSpaceExactlyWhen(c: char)
    ensures WorkflowValidator.IsSpace(c) <==> c as int in PYTHON_SPACES
  {
  }

  lemma GoSpaceExactlyWhen(c: char)
    ensures DumpFilter.IsSpace(c) <==> c as int in GO_SPACES
  {
  }

  /** A webhook path is refused as blank exactly when it has no other character. */
  lemma BlankPathExactlyWhen(s: string)
    ensures WorkflowValidator.Blank(s) <==> forall i | 0 <= i < |s| :: s[i] as int in PYTHON_SPACES
  {
    forall i | 0 <= i < |s|
      ensures WorkflowValidator.IsSpace(s[i]) <==> s[i] as int in PYTHON_SPACES
    {
      PythonSpaceExactlyWhen(s[i]);
    }
    if WorkflowValidator.Blank(s) {
      assert forall i | 0 <= i < |s| :: s[i] in s;
    }
  }

  /** Trimming takes exactly the white space off both ends of a line. */
  lemma TrimExactly(l: string) returns (a: nat, b: nat)
    ensures a <= b <= |l| && DumpFilter.TrimSpace(l) == l[a..b]
    ensures forall i | 0 <= i < |l| && !(a <= i < b) :: l[i] as int in GO_SPACES
    ensures a < b ==> l[a] as int !in GO_SPACES && l[b - 1] as int !in GO_SPACES
  {
    forall i | 0 <= i < |l|
      ensures DumpFilter.IsSpace(l[i]) <==> l[i] as int in GO_SPACES
    {
      GoSpaceExactlyWhen(l[i]);
    }
    a, b := DumpFilter.Start(l), DumpFilter.Stop(l);
    if a >= b {
      a := b;
    }
  }
}
