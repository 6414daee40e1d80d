/** The agent's trajectory log: a list of step entries, numbered as they
    are appended, and its JSON-lines rendering. The clock reading and the
    JSON encoder of one entry are inputs. */
module Trajectory {
  import opened Common
  import opened Text

  /** `if tool:` for an optional string. */
  predicate ToolGiven(tool: Option<string>)
  {
    tool.Some? && tool.value != ""
  }

  /** `if metadata:` for an optional dict. */
  predicate MetadataGiven(metadata: Option<Dict>)
  {
    metadata.Some? && metadata.value != map[]
  }

  /** The entry `log` appends when `count` entries are already there. */
  function NewEntry(count: nat, stepType: string, content: Json, tool: Option<string>, metadata: Option<Dict>,
                    timestamp: string): Dict
  {
    var base := map["step" := JInt(count + 1), "type" := JStr(stepType), "content" := content,
                    "timestamp" := JStr(timestamp)];
    var withTool := if ToolGiven(tool) then base["tool" := JStr(tool.value)] else base;
    if MetadataGiven(metadata) then withTool + metadata.value else withTool
  }

  /** The built-in keys of an entry, overridden by any metadata key of the
      same name; "tool" only when a tool name was given (or metadata sets it). */
  lemma EntryKeys(count: nat, stepType: string, content: Json, tool: Option<string>, metadata: Option<Dict>,
                  timestamp: string)
    ensures var e := NewEntry(count, stepType, content, tool, metadata, timestamp);
      var meta := if metadata.Some? then metadata.value else map[];
      && (forall key :: key in meta ==> key in e && e[key] == meta[key])
      && "step" in e && ("step" !in meta ==> e["step"] == JInt(count + 1))
      && "type" in e && ("type" !in meta ==> e["type"] == JStr(stepType))
      && "content" in e && ("content" !in meta ==> e["content"] == content)
      && "timestamp" in e && ("timestamp" !in meta ==> e["timestamp"] == JStr(timestamp))
      && ("tool" in e <==> ToolGiven(tool) || "tool" in meta)
      && ("tool" !in meta && ToolGiven(tool) ==> e["tool"] == JStr(tool.value))
      && e.Keys == {"step", "type", "content", "timestamp"} + (if ToolGiven(tool) then {"tool"} else {}) + meta.Keys
  {
  }

  /** Every entry's "step" is its 1-based position. */
  predicate NumberedSteps(steps: seq<Dict>)
  {
    forall k :: 0 <= k < |steps| ==> "step" in steps[k] && steps[k]["step"] == JInt(k + 1)
  }

  /** Appending an entry whose metadata leaves "step" alone keeps the steps
      numbered 1..n. */
  lemma NumberingKept(steps: seq<Dict>, stepType: string, content: Json, tool: Option<string>, metadata: Option<Dict>,
                      timestamp: string)
    requires NumberedSteps(steps)
    requires metadata.None? || "step" !in metadata.value
    ensures NumberedSteps(steps + [NewEntry(|steps|, stepType, content, tool, metadata, timestamp)])
  {
    EntryKeys(|steps|, stepType, content, tool, metadata, timestamp);
  }

  /** The lines of the JSON-lines text, one per entry. */
  function Encoded(steps: seq<Dict>, dumps: Dict -> string): (r: seq<string>)
    ensures |r| == |steps| && forall k :: 0 <= k < |steps| ==> r[k] == dumps(steps[k])
  {
    seq(|steps|, k requires 0 <= k < |steps| => dumps(steps[k]))
  }

  class TrajectoryLogger {
    var steps: seq<Dict>

    constructor ()
      ensures steps == []
    {
      steps := [];
    }

    /** log: append one entry numbered after the existing ones. */
    method Log(stepType: string, content: Json, tool: Option<string>, metadata: Option<Dict>, timestamp: string)
      modifies this
      ensures steps == old(steps) + [NewEntry(|old(steps)|, stepType, content, tool, metadata, timestamp)]
    {
      var entry := map["step" := JInt(|steps| + 1), "type" := JStr(stepType), "content" := content,
                       "timestamp" := JStr(timestamp)];
      if ToolGiven(tool) {
        entry := entry["tool" := JStr(tool.value)];
      }
      if MetadataGiven(metadata) {
        entry := entry + metadata.value;
      }
      steps := steps + [entry];
    }

    /** to_jsonl: the encoded entries joined by "\n". */
    function ToJsonl(dumps: Dict -> string): string
      reads this
    {
      Join(Encoded(steps, dumps), "\n")
    }

    /** get: the entries. */
    method Get() returns (r: seq<Dict>)
      ensures r == steps
    {
      r := steps;
    }
  }

  /** Splitting the JSON-lines text gives one line per entry, in order, when
      the encoder writes each entry on one non-empty line; no entries give "". */
  lemma JsonlLines(steps: seq<Dict>, dumps: Dict -> string)
    requires forall k :: 0 <= k < |steps| ==> dumps(steps[k]) != [] && '\n' !in dumps(steps[k])
    ensures SplitLines(Join(Encoded(steps, dumps), "\n")) == Encoded(steps, dumps)
    ensures steps == [] ==> Join(Encoded(steps, dumps), "\n") == ""
  {
    SplitLinesJoin(Encoded(steps, dumps));
  }
}
