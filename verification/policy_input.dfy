// The record helpers of the policy input layer: the code-block line range
// and its "L<begin>-<end>" text, the task location carried by a job event,
// the merged data of a REST request, the module options built from task
// fields, the export of a task record and the variable resolution walk.
// Python attribute values are decoded JSON values.

module PolicyInput {
  import opened Wrappers
  import Text
  import PyDict
  import Json

  type Dict = PyDict.Dict<string, Json.Json>

  /** str(v) for a Python value.  Containers are written as json.dumps writes
    * them, which differs from Python's repr in its quotes. */
  function PyStr(v: Json.Json): string
  {
    match v
    case JNull => "None"
    case JBool(b) => if b then "True" else "False"
    case JInt(i) => Text.IntToStr(i)
    case JFloat(repr) => repr
    case JStr(s) => s
    case _ => Json.Dumps(v)
  }

  // ---------------------------------------------------------------- CodeBlock

  /** A line range; JNull stands for an unset bound.  A block built from
    * text holds strings, one built from a dict holds whatever the dict held. */
  datatype CodeBlock = CodeBlock(begin: Json.Json, end: Json.Json)

  /** CodeBlock.from_dict: "begin" is required, "end" is optional. */
  function FromDict(d: Dict): (r: Result<CodeBlock>)
    ensures r.Err? <==> "begin" !in PyDict.Keys(d)
    ensures r.Ok? ==> PyDict.Get(d, "begin") == Some(r.value.begin)
    ensures r.Ok? ==> r.value.end == PyDict.Get(d, "end").GetOr(Json.JNull)
  {
    match PyDict.Get(d, "begin")
    case None => Err(ValueError("failed to construct a CodeBlock from the dict"))
    case Some(b) =>
      match PyDict.Get(d, "end")
      case Some(e) => Ok(CodeBlock(b, e))
      case None => Ok(CodeBlock(b, Json.JNull))
  }

  /** CodeBlock.to_dict. */
  function ToDict(b: CodeBlock): (r: Dict)
    ensures PyDict.Keys(r) == ["begin", "end"]
    ensures PyDict.Get(r, "begin") == Some(b.begin) && PyDict.Get(r, "end") == Some(b.end)
  {
    [("begin", b.begin), ("end", b.end)]
  }

  /** A dict holding exactly begin and end survives from_dict then to_dict. */
  lemma DictRoundTrip(b: Json.Json, e: Json.Json)
    ensures FromDict([("begin", b), ("end", e)]).Ok?
    ensures ToDict(FromDict([("begin", b), ("end", e)]).value) == [("begin", b), ("end", e)]
  {
  }

  /** A dict with only begin comes back with end set to None. */
  lemma BeginOnlyRoundTrip(b: Json.Json)
    ensures FromDict([("begin", b)]).Ok?
    ensures ToDict(FromDict([("begin", b)]).value) == [("begin", b), ("end", Json.JNull)]
  {
  }

  /** isinstance(v, int): Python's bool is a subclass of int. */
  predicate IsPyInt(v: Json.Json)
  {
    v.JInt? || v.JBool?
  }

  /** repr(CodeBlock): begin must be an int (True and False are ints too);
    * "L<b>-<e>" when end is set and "L<b>" otherwise. */
  function Render(b: CodeBlock): (r: Result<string>)
    ensures r.Err? <==> !IsPyInt(b.begin)
    ensures r.Err? ==> r.error.ValueError?
    ensures r.Ok? && b.end.JNull? ==> r.value == "L" + PyStr(b.begin)
    ensures r.Ok? && !b.end.JNull? ==> r.value == "L" + PyStr(b.begin) + "-" + PyStr(b.end)
    ensures b.begin.JInt? ==> r.Ok? && Text.StartsWith(r.value, "L" + Text.IntToStr(b.begin.i))
    ensures b.begin.JBool? ==> r.Ok? && Text.StartsWith(r.value, if b.begin.b then "LTrue" else "LFalse")
  {
    if !IsPyInt(b.begin) then Err(ValueError("`begin` is not found for this code block"))
    else if !b.end.JNull? then Ok("L" + PyStr(b.begin) + "-" + PyStr(b.end))
    else Ok("L" + PyStr(b.begin))
  }

  /** CodeBlock.dict2str: succeeds exactly when the dict has a "begin" that
    * Python counts as an int. */
  function DictToStr(d: Dict): (r: Result<string>)
    ensures r.Ok? <==> PyDict.Get(d, "begin").Some? && IsPyInt(PyDict.Get(d, "begin").value)
    ensures r.Ok? ==> r == Render(CodeBlock(PyDict.Get(d, "begin").value, PyDict.Get(d, "end").GetOr(Json.JNull)))
  {
    match FromDict(d)
    case Err(e) => Err(e)
    case Ok(b) => Render(b)
  }

  /** A Boolean begin renders through str(): True is "True". */
  lemma BoolBeginRenders()
    ensures Render(CodeBlock(Json.JBool(true), Json.JInt(3))) == Ok("LTrue-3")
    ensures DictToStr([("begin", Json.JBool(false))]) == Ok("LFalse")
  {
    assert Text.IntToStr(3) == "3" by {
      assert Text.NatToStr(3) == [Text.DigitChar(3)];
    }
    assert "L" + "True" + "-" + "3" == "LTrue-3";
    assert "L" + "False" == "LFalse";
  }

  /** CodeBlock.from_str: the text must start with "L" and contain "-"; every
    * "L" is dropped and the first two "-"-separated parts are kept, as
    * strings. */
  function FromStr(s: string): (r: Result<CodeBlock>)
    ensures r.Ok? <==> Text.StartsWith(s, "L") && '-' in s
    ensures r.Ok? ==> r.value.begin.JStr? && r.value.end.JStr?
    ensures r.Ok? ==> 'L' !in r.value.begin.s && '-' !in r.value.begin.s
  {
    if Text.StartsWith(s, "L") && '-' in s then
      var t := Text.ReplaceChar(s, 'L', "");
      Text.ReplaceCharKeeps(s, 'L', "", '-');
      Text.SplitHead(t, '-');
      var parts := Text.Split(t, '-');
      Ok(CodeBlock(Json.JStr(parts[0]), Json.JStr(parts[1])))
    else Err(ValueError("failed to construct a CodeBlock from the string"))
  }

  /** Parsing a rendered range gives the bounds back as strings, so the
    * parsed block cannot itself be rendered. */
  lemma {:induction false} RenderFromStr(b: nat, e: nat)
    ensures Render(CodeBlock(Json.JInt(b), Json.JInt(e))).Ok?
    ensures FromStr(Render(CodeBlock(Json.JInt(b), Json.JInt(e))).value)
      == Ok(CodeBlock(Json.JStr(Text.NatToStr(b)), Json.JStr(Text.NatToStr(e))))
    ensures Render(CodeBlock(Json.JStr(Text.NatToStr(b)), Json.JStr(Text.NatToStr(e)))).Err?
  {
    FromStrOfRange(Text.NatToStr(b), Text.NatToStr(e));
  }

  /** "L<digits>-<digits>" parses into its two digit runs. */
  lemma {:induction false} FromStrOfRange(db: string, de: string)
    requires |db| >= 1 && Text.AllDigits(db) && Text.AllDigits(de)
    ensures FromStr("L" + db + "-" + de) == Ok(CodeBlock(Json.JStr(db), Json.JStr(de)))
  {
    var t := db + "-" + de;
    var s := "L" + db + "-" + de;
    assert s == "L" + t;
    assert Text.StartsWith(s, "L") by {
      assert s[..1] == "L";
    }
    assert '-' in s by {
      assert s[1 + |db|] == '-';
    }
    RangeParts(db, de);
  }

  lemma RangeParts(db: string, de: string)
    requires Text.AllDigits(db) && Text.AllDigits(de)
    ensures Text.ReplaceChar("L" + db + "-" + de, 'L', "") == db + "-" + de
    ensures Text.Split(db + "-" + de, '-') == [db, de]
  {
    RangeDropsL(db, de);
    RangeSplits(db, de);
  }

  lemma RangeDropsL(db: string, de: string)
    requires Text.AllDigits(db) && Text.AllDigits(de)
    ensures Text.ReplaceChar("L" + db + "-" + de, 'L', "") == db + "-" + de
  {
    var t := db + "-" + de;
    assert "L" + db + "-" + de == "L" + t;
    forall i | 0 <= i < |t|
      ensures Text.IsDigit(t[i]) || t[i] == '-'
    {
      if i < |db| {
        assert t[i] == db[i];
      } else if i > |db| {
        assert t[i] == de[i - |db| - 1];
      }
    }
    ReplaceDigits(t);
  }

  lemma RangeSplits(db: string, de: string)
    requires Text.AllDigits(db) && Text.AllDigits(de)
    ensures Text.Split(db + "-" + de, '-') == [db, de]
  {
    assert forall i :: 0 <= i < |db| ==> db[i] != '-';
    assert forall i :: 0 <= i < |de| ==> de[i] != '-';
    Text.SplitJoin([db, de], '-');
    assert Text.Join([db, de], "-") == db + "-" + de;
  }

  /** A text of digits and dashes has no "L" to drop. */
  lemma {:induction false} ReplaceDigits(s: string)
    requires forall i :: 0 <= i < |s| ==> Text.IsDigit(s[i]) || s[i] == '-'
    ensures Text.ReplaceChar("L" + s, 'L', "") == s
    ensures Text.ReplaceChar(s, 'L', "") == s
  {
    assert ("L" + s)[1..] == s;
    assert 'L' !in s;
  }

  // -------------------------------------------------------------------- Event

  /** The Event record built from an ansible-runner job event. */
  datatype Event = Event(
    filepath: string,
    line: Option<int>,
    eventType: Json.Json,
    uuid: Json.Json,
    stdout: Json.Json,
    eventData: Json.Json,
    name: Json.Json,
    taskPath: Json.Json)

  /** The file and line of a "file:line" task path.  The file is the text
    * before the first ':'; the line is int() of the last ':'-separated part
    * when there are two parts or more and the last is non-empty, and None
    * otherwise or when int() fails.  A task path that is not a string leaves
    * the file empty. */
  function TaskLocation(taskPath: Json.Json): (r: (string, Option<int>))
    ensures taskPath.JStr? ==> Text.StartsWith(taskPath.s, r.0) && ':' !in r.0
    ensures taskPath.JStr? && |r.0| < |taskPath.s| ==> taskPath.s[|r.0|] == ':'
    ensures !taskPath.JStr? ==> r == ("", None)
    ensures r.1.Some? ==> taskPath.JStr? && ':' in taskPath.s
  {
    if !taskPath.JStr? then ("", None)
    else
      var s := taskPath.s;
      Text.SplitHead(s, ':');
      var parts := Text.Split(s, ':');
      var last := parts[|parts| - 1];
      if |parts| > 1 && last != "" then
        match Text.ParseInt(last)
        case Ok(n) => (parts[0], Some(n))
        case Err(_) => (parts[0], None)
      else (parts[0], None)
  }

  /** Event.from_ansible_jobevent.  The event must be a dict and its
    * "event_data" (default {}) must be a dict, otherwise the .get call
    * raises; the name repeats the event type. */
  function FromJobEvent(event: Json.Json): (r: Result<Event>)
    ensures r.Err? <==>
      !event.JObj? || !PyDict.Get(event.fields, "event_data").GetOr(Json.JObj([])).JObj?
    ensures r.Ok? ==>
      (r.value.name == r.value.eventType
       && r.value.eventType == PyDict.Get(event.fields, "event").GetOr(Json.JStr("")))
    ensures r.Ok? ==> r.value.eventData == PyDict.Get(event.fields, "event_data").GetOr(Json.JObj([]))
    ensures r.Ok? ==> (r.value.filepath, r.value.line) == TaskLocation(r.value.taskPath)
  {
    if !event.JObj? then Err(AttributeError("object has no attribute 'get'"))
    else
      var f := event.fields;
      var data := PyDict.Get(f, "event_data").GetOr(Json.JObj([]));
      if !data.JObj? then Err(AttributeError("object has no attribute 'get'"))
      else
        var eventType := PyDict.Get(f, "event").GetOr(Json.JStr(""));
        var taskPath := PyDict.Get(data.fields, "task_path").GetOr(Json.JStr(""));
        var loc := TaskLocation(taskPath);
        Ok(Event(loc.0, loc.1, eventType, PyDict.Get(f, "uuid").GetOr(Json.JNull),
                 PyDict.Get(f, "stdout").GetOr(Json.JNull), data, eventType, taskPath))
  }

  /** A task path "file:n" gives back the file and the line number. */
  lemma {:induction false} TaskLocationOf(path: string, n: nat)
    requires ':' !in path
    ensures TaskLocation(Json.JStr(path + ":" + Text.NatToStr(n))) == (path, Some(n))
  {
    var d := Text.NatToStr(n);
    assert forall i :: 0 <= i < |d| ==> d[i] != ':';
    Text.SplitJoin([path, d], ':');
    assert Text.Join([path, d], ":") == path + ":" + d;
    Text.ParseIntToStr(n);
  }

  /** A task path without ':' is all file and no line. */
  lemma TaskLocationNoColon(path: string)
    requires ':' !in path
    ensures TaskLocation(Json.JStr(path)) == (path, None)
  {
    Text.SplitJoin([path], ':');
  }

  /** A trailing ':' gives no line, whatever comes before it. */
  lemma {:induction false} TaskLocationTrailingColon(path: string)
    requires ':' !in path
    ensures TaskLocation(Json.JStr(path + ":")) == (path, None)
  {
    Text.SplitJoin([path, ""], ':');
    assert Text.Join([path, ""], ":") == path + ":";
  }

  // --------------------------------------------------------------- APIRequest

  /** d.update(e): the entries of e assigned in order. */
  function Update(d: Dict, e: Dict): (r: Dict)
    decreases |e|
  {
    if |e| == 0 then d else Update(PyDict.Put(d, e[0].0, e[0].1), e[1..])
  }

  /** After d.update(e) a key of e reads as in e and any other key as in d. */
  lemma {:induction false} GetUpdate(d: Dict, e: Dict, k: string)
    requires PyDict.UniqueKeys(e)
    ensures PyDict.Get(Update(d, e), k) ==
      if k in PyDict.Keys(e) then PyDict.Get(e, k) else PyDict.Get(d, k)
    decreases |e|
  {
    if |e| > 0 {
      GetUpdate(PyDict.Put(d, e[0].0, e[0].1), e[1..], k);
      PyDict.GetPut(d, e[0].0, e[0].1, k);
      assert PyDict.Keys(e) == [e[0].0] + PyDict.Keys(e[1..]);
      if k == e[0].0 {
        assert k !in PyDict.Keys(e[1..]);
      }
    }
  }

  lemma {:induction false} UpdateUnique(d: Dict, e: Dict)
    requires PyDict.UniqueKeys(d)
    ensures PyDict.UniqueKeys(Update(d, e))
    decreases |e|
  {
    if |e| > 0 {
      PyDict.PutUnique(d, e[0].0, e[0].1);
      UpdateUnique(PyDict.Put(d, e[0].0, e[0].1), e[1..]);
    }
  }

  /** The dict part of a value: a non-empty dict's entries, or none. */
  function DictPart(v: Json.Json): Dict
  {
    if Json.Truthy(v) && v.JObj? then v.fields else []
  }

  predicate UniqueFields(v: Json.Json)
  {
    v.JObj? ==> PyDict.UniqueKeys(v.fields)
  }

  /** APIRequest.compute_data: query parameters overlaid with the post data;
    * a part that is not a dict is ignored. */
  function ComputeData(queryParams: Json.Json, postData: Json.Json): (r: Dict)
  {
    Update(Update([], DictPart(queryParams)), DictPart(postData))
  }

  /** The post data wins a key collision; a key in neither part is absent. */
  lemma ComputeDataGet(queryParams: Json.Json, postData: Json.Json, k: string)
    requires UniqueFields(queryParams) && UniqueFields(postData)
    ensures PyDict.UniqueKeys(ComputeData(queryParams, postData))
    ensures PyDict.Get(ComputeData(queryParams, postData), k) ==
      if k in PyDict.Keys(DictPart(postData)) then PyDict.Get(DictPart(postData), k)
      else PyDict.Get(DictPart(queryParams), k)
  {
    var q, p := DictPart(queryParams), DictPart(postData);
    GetUpdate([], q, k);
    GetUpdate(Update([], q), p, k);
    UpdateUnique([], q);
    UpdateUnique(Update([], q), p);
  }

  datatype ApiRequest = ApiRequest(
    headers: Json.Json,
    path: Json.Json,
    httpMethod: Json.Json,
    queryParams: Json.Json,
    postData: Json.Json,
    data: Dict)

  /** APIRequest.__post_init__: data given to the constructor is kept;
    * empty data is computed from the two parts. */
  function NewApiRequest(headers: Json.Json, path: Json.Json, httpMethod: Json.Json,
                         queryParams: Json.Json, postData: Json.Json, data: Dict): (r: ApiRequest)
    ensures |data| > 0 ==> r.data == data
    ensures |data| == 0 ==> r.data == ComputeData(queryParams, postData)
    ensures r.queryParams == queryParams && r.postData == postData
  {
    ApiRequest(headers, path, httpMethod, queryParams, postData,
               if |data| > 0 then data else ComputeData(queryParams, postData))
  }

  /** APIRequest.from_dict: each part read with its default, then the data
    * computed from the two parameter parts. */
  function ApiRequestFromDict(rest: Dict): (r: ApiRequest)
    ensures r.queryParams == PyDict.Get(rest, "query_params").GetOr(Json.JObj([]))
    ensures r.postData == PyDict.Get(rest, "post_data").GetOr(Json.JObj([]))
    ensures r.data == ComputeData(r.queryParams, r.postData)
  {
    ApiRequest(
      PyDict.Get(rest, "headers").GetOr(Json.JObj([])),
      PyDict.Get(rest, "path").GetOr(Json.JStr("")),
      PyDict.Get(rest, "method").GetOr(Json.JStr("")),
      PyDict.Get(rest, "query_params").GetOr(Json.JObj([])),
      PyDict.Get(rest, "post_data").GetOr(Json.JObj([])),
      ComputeData(PyDict.Get(rest, "query_params").GetOr(Json.JObj([])),
                  PyDict.Get(rest, "post_data").GetOr(Json.JObj([]))))
  }

  // ------------------------------------------------------- module options

  /** A value Python can use as a dict key. */
  predicate Hashable(v: Json.Json)
  {
    !v.JArr? && !v.JObj?
  }

  /** Copying a dict key by key gives the same dict. */
  lemma {:induction false} UpdateFresh(e: Dict)
    requires PyDict.UniqueKeys(e)
    ensures Update([], e) == e
  {
    UpdateOnto([], e);
  }

  lemma {:induction false} UpdateOnto(d: Dict, e: Dict)
    requires PyDict.UniqueKeys(d + e)
    ensures Update(d, e) == d + e
    decreases |e|
  {
    if |e| > 0 {
      forall i | 0 <= i < |d|
        ensures PyDict.Keys(d)[i] != e[0].0
      {
        assert (d + e)[i] == d[i] && (d + e)[|d|] == e[0];
      }
      PutFresh(d, e[0].0, e[0].1);
      assert d + [e[0]] + e[1..] == d + e;
      UpdateOnto(d + [e[0]], e[1..]);
    }
  }

  /** Assigning a key the dict does not hold appends it. */
  lemma {:induction false} PutFresh(d: Dict, k: string, v: Json.Json)
    requires k !in PyDict.Keys(d)
    ensures PyDict.Put(d, k, v) == d + [(k, v)]
    decreases |d|
  {
    if |d| > 0 {
      assert PyDict.Keys(d) == [d[0].0] + PyDict.Keys(d[1..]);
      PutFresh(d[1..], k, v);
      assert d == [d[0]] + d[1..];
    }
  }

  /** task_fields2module_options: {} without a (truthy) action, {action: {}}
    * when the args are missing, empty or not a dict, {action: args}
    * otherwise.  A list or dict action cannot be a key. */
  function TaskFieldsToModuleOptions(taskFields: Dict): (r: Result<PyDict.Dict<Json.Json, Json.Json>>)
    ensures var action := PyDict.Get(taskFields, "action").GetOr(Json.JNull);
      (!Json.Truthy(action) ==> r == Ok([]))
      && (r.Err? <==> Json.Truthy(action) && !Hashable(action))
      && (r.Ok? && Json.Truthy(action) ==> |r.value| == 1 && r.value[0].0 == action)
    ensures var action := PyDict.Get(taskFields, "action").GetOr(Json.JNull);
      var args := PyDict.Get(taskFields, "args").GetOr(Json.JObj([]));
      Json.Truthy(action) && Hashable(action) ==>
        r == Ok([(action, if Json.Truthy(args) && args.JObj? then Json.JObj(Update([], args.fields)) else Json.JObj([]))])
  {
    var action := PyDict.Get(taskFields, "action").GetOr(Json.JNull);
    if !Json.Truthy(action) then Ok([])
    else if !Hashable(action) then Err(TypeError("unhashable type"))
    else
      var args := PyDict.Get(taskFields, "args").GetOr(Json.JObj([]));
      if !Json.Truthy(args) || !args.JObj? then Ok([(action, Json.JObj([]))])
      else Ok([(action, Json.JObj(Update([], args.fields)))])
  }

  /** A non-empty args dict is handed over unchanged under the action. */
  lemma ModuleOptionsCopyArgs(taskFields: Dict, action: Json.Json, args: Dict)
    requires PyDict.Get(taskFields, "action") == Some(action)
    requires Json.Truthy(action) && Hashable(action)
    requires PyDict.Get(taskFields, "args") == Some(Json.JObj(args))
    requires |args| > 0 && PyDict.UniqueKeys(args)
    ensures TaskFieldsToModuleOptions(taskFields) == Ok([(action, Json.JObj(args))])
  {
    UpdateFresh(args);
  }

  // ---------------------------------------------------------- task export

  /** The exported name of an attribute: "_async" is written "async". */
  function ExportName(k: string): string
  {
    if k == "_async" then "async" else k
  }

  /** PolicyInputTask.to_dict over the instance attributes in order: a
    * "__module__" dict is spread into the output, "_async" is exported as
    * "async" and every other attribute under its own name. */
  function ExportTask(data: Dict, attrs: Dict): (r: Dict)
    decreases |attrs|
  {
    if |attrs| == 0 then data
    else
      var (k, v) := attrs[0];
      var data' :=
        if k == "__module__" then (if v.JObj? then Update(data, v.fields) else data)
        else PyDict.Put(data, ExportName(k), v);
      ExportTask(data', attrs[1..])
  }

  /** For a record whose attributes hold neither "__module__" nor "async"
    * (every task record: its module sits in "_module"), the export reads
    * "_async" as "async", has no "_async", and keeps every other attribute. */
  lemma {:induction false} ExportTaskGet(data: Dict, attrs: Dict, k: string)
    requires PyDict.UniqueKeys(attrs)
    requires "__module__" !in PyDict.Keys(attrs) && "async" !in PyDict.Keys(attrs)
    ensures PyDict.Get(ExportTask(data, attrs), k) ==
      if k == "async" && "_async" in PyDict.Keys(attrs) then PyDict.Get(attrs, "_async")
      else if k != "_async" && k != "async" && k in PyDict.Keys(attrs) then PyDict.Get(attrs, k)
      else PyDict.Get(data, k)
    decreases |attrs|
  {
    if |attrs| > 0 {
      var (a, v) := attrs[0];
      var rest := attrs[1..];
      PyDict.UniqueStep(attrs);
      ExportTaskGet(PyDict.Put(data, ExportName(a), v), rest, k);
      PyDict.GetPut(data, ExportName(a), v, k);
    }
  }

  /** The exported record of a task with no prior output. */
  lemma ExportTaskRenamesAsync(attrs: Dict, v: Json.Json)
    requires PyDict.UniqueKeys(attrs)
    requires "__module__" !in PyDict.Keys(attrs) && "async" !in PyDict.Keys(attrs)
    requires PyDict.Get(attrs, "_async") == Some(v)
    ensures PyDict.Get(ExportTask([], attrs), "async") == Some(v)
    ensures PyDict.Get(ExportTask([], attrs), "_async") == None
  {
    ExportTaskGet([], attrs, "async");
    ExportTaskGet([], attrs, "_async");
  }

  // ------------------------------------------------------- variable resolution

  /** The resolver of one string (recursive_resolve_single_var). */
  type Resolver = (string, Dict) -> Json.Json

  /** recursive_resolve_variable: a falsy value or an empty variable map
    * returns the data unchanged; dicts and lists are rebuilt entry by entry;
    * strings go to the resolver; other scalars are kept. */
  function ResolveVariable(data: Json.Json, variables: Dict, resolve: Resolver): Json.Json
    decreases data
  {
    if !Json.Truthy(data) || |variables| == 0 then data
    else
      match data
      case JObj(fields) =>
        Json.JObj(seq(|fields|, i requires 0 <= i < |fields| =>
          (fields[i].0, ResolveVariable(fields[i].1, variables, resolve))))
      case JArr(items) =>
        Json.JArr(seq(|items|, i requires 0 <= i < |items| => ResolveVariable(items[i], variables, resolve)))
      case JStr(s) => resolve(s, variables)
      case _ => data
  }

  /** The walk keeps the shape: dict keys in order and list lengths; falsy
    * data, an empty variable map and non-string scalars come back unchanged. */
  lemma ResolveShape(data: Json.Json, variables: Dict, resolve: Resolver)
    ensures var r := ResolveVariable(data, variables, resolve);
      (data.JObj? ==> r.JObj? && PyDict.Keys(r.fields) == PyDict.Keys(data.fields))
      && (data.JArr? ==> r.JArr? && |r.items| == |data.items|)
      && (!Json.Truthy(data) || |variables| == 0 ==> r == data)
      && (!data.JObj? && !data.JArr? && !data.JStr? ==> r == data)
  {
  }

  /** A resolver that keeps every string makes the whole walk the identity. */
  lemma {:induction false} ResolveIdentity(data: Json.Json, variables: Dict, resolve: Resolver)
    requires forall s :: resolve(s, variables) == Json.JStr(s)
    ensures ResolveVariable(data, variables, resolve) == data
    decreases data
  {
    if Json.Truthy(data) && |variables| > 0 {
      match data
      case JObj(fields) =>
        forall i | 0 <= i < |fields|
          ensures ResolveVariable(fields[i].1, variables, resolve) == fields[i].1
        {
          ResolveIdentity(fields[i].1, variables, resolve);
        }
        var r := ResolveVariable(data, variables, resolve);
        assert r.fields == fields;
      case JArr(items) =>
        forall i | 0 <= i < |items|
          ensures ResolveVariable(items[i], variables, resolve) == items[i]
        {
          ResolveIdentity(items[i], variables, resolve);
        }
        var r := ResolveVariable(data, variables, resolve);
        assert r.items == items;
      case _ =>
    }
  }
}
