/** The workflow document: the record `handleSaveWorkflow` exports with its
    file name, and the defaults `handleLoadWorkflow` applies to a parsed
    file (client/pages/Index.tsx). */
module WorkflowDocument {
  import opened Wrappers
  import opened WorkflowTypes

  /** The name an imported workflow gets when its own name is missing or empty. */
  const IMPORTED_NAME := "Imported Workflow"

  /** The suffix of every exported file name. */
  const JSON_SUFFIX := ".json"

  // ---------------------------------------------------------------------
  // File name: `workflowName.replace(/\s+/g, "_") + ".json"`

  /** The characters matched by `\s` in an ECMAScript regular expression:
      the WhiteSpace and LineTerminator code points. */
  predicate IsWhitespace(c: char) {
    || c == '\U{0009}' || c == '\U{000A}' || c == '\U{000B}' || c == '\U{000C}' || c == '\U{000D}'
    || c == '\U{0020}' || c == '\U{00A0}' || c == '\U{1680}'
    || ('\U{2000}' <= c <= '\U{200A}')
    || c == '\U{2028}' || c == '\U{2029}' || c == '\U{202F}' || c == '\U{205F}'
    || c == '\U{3000}' || c == '\U{FEFF}'
  }

  ghost predicate NoWhitespace(s: string) {
    forall i :: 0 <= i < |s| ==> !IsWhitespace(s[i])
  }

  /** `s` without its leading whitespace run: the longest suffix of `s`
      that does not start with whitespace. */
  function SkipWhitespace(s: string): (r: string)
    ensures |r| <= |s| && r == s[|s| - |r|..]
    ensures forall i :: 0 <= i < |s| - |r| ==> IsWhitespace(s[i])
    ensures r == [] || !IsWhitespace(r[0])
  {
    if s != [] && IsWhitespace(s[0]) then SkipWhitespace(s[1..]) else s
  }

  /** `s` with every maximal run of whitespace replaced by one underscore,
      as the global replace of `/\s+/` by `"_"` does. */
  function ReplaceWhitespaceRuns(s: string): (r: string)
    ensures NoWhitespace(r)
    ensures |r| <= |s|
    ensures NoWhitespace(s) ==> r == s
    decreases |s|
  {
    if s == [] then []
    else if IsWhitespace(s[0]) then "_" + ReplaceWhitespaceRuns(SkipWhitespace(s[1..]))
    else
      var rest := ReplaceWhitespaceRuns(s[1..]);
      assert NoWhitespace(s) ==> NoWhitespace(s[1..]) by {
        if NoWhitespace(s) {
          forall i | 0 <= i < |s[1..]| ensures !IsWhitespace(s[1..][i]) {
            assert s[1..][i] == s[i + 1];
          }
        }
      }
      assert NoWhitespace(s) ==> s == [s[0]] + s[1..];
      [s[0]] + rest
  }

  /** A character that is not whitespace is copied through. */
  lemma ReplaceKeepsCharacter(c: char, s: string)
    requires !IsWhitespace(c)
    ensures ReplaceWhitespaceRuns([c] + s) == [c] + ReplaceWhitespaceRuns(s)
  {
  }

  lemma {:induction false} SkipWhitespaceRun(w: string, s: string)
    requires forall i :: 0 <= i < |w| ==> IsWhitespace(w[i])
    requires s == [] || !IsWhitespace(s[0])
    ensures SkipWhitespace(w + s) == s
  {
    if w == [] {
      assert w + s == s;
    } else {
      assert (w + s)[0] == w[0];
      assert (w + s)[1..] == w[1..] + s;
      SkipWhitespaceRun(w[1..], s);
    }
  }

  /** A whole whitespace run, however long, becomes exactly one underscore.
      With ReplaceKeepsCharacter this determines the replacement on every string. */
  lemma {:induction false} ReplaceCollapsesRun(w: string, s: string)
    requires |w| > 0
    requires forall i :: 0 <= i < |w| ==> IsWhitespace(w[i])
    requires s == [] || !IsWhitespace(s[0])
    ensures ReplaceWhitespaceRuns(w + s) == "_" + ReplaceWhitespaceRuns(s)
  {
    assert (w + s)[0] == w[0];
    assert (w + s)[1..] == w[1..] + s;
    SkipWhitespaceRun(w[1..], s);
  }

  /** Replacing twice is replacing once. */
  lemma ReplaceIdempotent(s: string)
    ensures ReplaceWhitespaceRuns(ReplaceWhitespaceRuns(s)) == ReplaceWhitespaceRuns(s)
  {
  }

  /** The name of the exported file: the workflow name with its whitespace
      runs replaced, then ".json". */
  function ExportFileName(name: string): (r: string)
    ensures |r| >= |JSON_SUFFIX| && r[|r| - |JSON_SUFFIX|..] == JSON_SUFFIX
    ensures NoWhitespace(r[..|r| - |JSON_SUFFIX|])
    ensures NoWhitespace(name) ==> r == name + JSON_SUFFIX
  {
    var base := ReplaceWhitespaceRuns(name);
    assert (base + JSON_SUFFIX)[..|base|] == base;
    base + JSON_SUFFIX
  }

  // ---------------------------------------------------------------------
  // Export and import of the document record

  /** The record `handleSaveWorkflow` serialises; `isActive` is always false. */
  function ExportDocument(name: string, nodes: seq<Node>, connections: seq<Connection>): Document {
    Document(name, nodes, connections, false)
  }

  /** `workflow.name || "Imported Workflow"`: a missing or empty name is
      replaced by the default. */
  function ImportedName(p: ParsedDocument): (r: string)
    ensures r != ""
    ensures p.name.Some? && p.name.value != "" ==> r == p.name.value
    ensures p.name.None? || p.name.value == "" ==> r == IMPORTED_NAME
  {
    if p.name.Some? && p.name.value != "" then p.name.value else IMPORTED_NAME
  }

  /** `workflow.nodes || []`. */
  function ImportedNodes(p: ParsedDocument): seq<Node> {
    p.nodes.GetOr([])
  }

  /** `workflow.connections || []`: taken verbatim, without checking that
      their endpoints exist. */
  function ImportedConnections(p: ParsedDocument): seq<Connection> {
    p.connections.GetOr([])
  }

  /** What parsing an exported document gives back: every field present. */
  function Reparse(d: Document): ParsedDocument {
    ParsedDocument(Some(d.name), Some(d.nodes), Some(d.connections))
  }

  /** Exporting and importing again restores the nodes and connections
      exactly, and the name exactly when it is not empty. */
  lemma RoundTrip(name: string, nodes: seq<Node>, connections: seq<Connection>)
    ensures ImportedNodes(Reparse(ExportDocument(name, nodes, connections))) == nodes
    ensures ImportedConnections(Reparse(ExportDocument(name, nodes, connections))) == connections
    ensures ImportedName(Reparse(ExportDocument(name, nodes, connections))) == name <==> name != ""
  {
  }
}
