// The PolicyInput base class that custom target types extend: construction
// with a non-empty type, loading from JSON or YAML text, attribute-filtered
// construction from a dict, and the choice of what dumps serialises.  An
// instance is its attribute map; a class is the map of its attributes'
// defaults.  The JSON and YAML parsers and jsonpickle are parameters.

module InputInterface {
  import opened Wrappers
  import PyDict
  import Json

  type Attrs = PyDict.Dict<string, Json.Json>

  /** A PolicyInput class: its data attributes with their default values
    * (the base class declares type, name, filepath, lines and metadata). */
  datatype InputClass = InputClass(defaults: Attrs)

  const BaseClass := InputClass([("type", Json.JStr("")), ("name", Json.JStr("")), ("filepath", Json.JStr("")),
                                 ("lines", Json.JObj([])), ("metadata", Json.JObj([]))])

  /** The type an instance starts with. */
  function DefaultType(cls: InputClass): Json.Json
  {
    PyDict.Get(cls.defaults, "type").GetOr(Json.JStr(""))
  }

  /** cls(): __post_init__ rejects an empty type. */
  function New(cls: InputClass): (r: Result<Attrs>)
    ensures r.Err? <==> !Json.Truthy(DefaultType(cls))
    ensures r.Err? ==> r.error.ValueError?
    ensures r.Ok? ==> r.value == cls.defaults
  {
    if !Json.Truthy(DefaultType(cls)) then Err(ValueError("`type` must be a non-empty value to init PolicyInput"))
    else Ok(cls.defaults)
  }

  /** The base class cannot be instantiated without a type, so none of its
    * loaders can succeed. */
  lemma BaseClassRejected()
    ensures New(BaseClass).Err?
  {
    assert DefaultType(BaseClass) == Json.JStr("");
  }

  /** `for k, v in data.items(): if hasattr(instance, k): setattr(...)` */
  function SetAttrs(inst: Attrs, data: Attrs): (r: Attrs)
    decreases |data|
  {
    if |data| == 0 then inst
    else
      var (k, v) := data[0];
      SetAttrs(if k in PyDict.Keys(inst) then PyDict.Put(inst, k, v) else inst, data[1..])
  }

  /** Setting attributes adds none: the attribute names stay as they were,
    * an attribute named in the data takes the data's value and every other
    * keeps its own. */
  lemma SetAttrsSpec(inst: Attrs, data: Attrs, k: string)
    requires PyDict.UniqueKeys(data)
    ensures PyDict.Keys(SetAttrs(inst, data)) == PyDict.Keys(inst)
    ensures PyDict.Get(SetAttrs(inst, data), k) ==
      if k in PyDict.Keys(inst) && k in PyDict.Keys(data) then PyDict.Get(data, k) else PyDict.Get(inst, k)
  {
    SetAttrsKeys(inst, data);
    SetAttrsGet(inst, data, k);
  }

  lemma {:induction false} SetAttrsKeys(inst: Attrs, data: Attrs)
    ensures PyDict.Keys(SetAttrs(inst, data)) == PyDict.Keys(inst)
    decreases |data|
  {
    if |data| > 0 {
      var (a, v) := data[0];
      var inst' := if a in PyDict.Keys(inst) then PyDict.Put(inst, a, v) else inst;
      if a in PyDict.Keys(inst) {
        PyDict.PutKeys(inst, a, v);
      }
      SetAttrsKeys(inst', data[1..]);
    }
  }

  lemma {:induction false} SetAttrsGet(inst: Attrs, data: Attrs, k: string)
    requires PyDict.UniqueKeys(data)
    ensures PyDict.Get(SetAttrs(inst, data), k) ==
      if k in PyDict.Keys(inst) && k in PyDict.Keys(data) then PyDict.Get(data, k) else PyDict.Get(inst, k)
    decreases |data|
  {
    if |data| > 0 {
      var (a, v) := data[0];
      var inst' := if a in PyDict.Keys(inst) then PyDict.Put(inst, a, v) else inst;
      PyDict.UniqueStep(data);
      if a in PyDict.Keys(inst) {
        PyDict.PutKeys(inst, a, v);
        PyDict.GetPut(inst, a, v, k);
      }
      SetAttrsGet(inst', data[1..], k);
    }
  }

  /** PolicyInputFromJSON.from_json: a fresh instance with the data's values
    * for the keys that are attributes; other keys are ignored. */
  function FromJson(cls: InputClass, data: Attrs): (r: Result<Attrs>)
    ensures r.Err? <==> New(cls).Err?
  {
    var inst :- New(cls);
    Ok(SetAttrs(inst, data))
  }

  /** What from_json builds: the class's attributes, each read from the data
    * when the data has it. */
  lemma FromJsonSpec(cls: InputClass, data: Attrs, k: string)
    requires PyDict.UniqueKeys(data) && New(cls).Ok?
    ensures PyDict.Keys(FromJson(cls, data).value) == PyDict.Keys(cls.defaults)
    ensures PyDict.Get(FromJson(cls, data).value, k) ==
      if k in PyDict.Keys(cls.defaults) && k in PyDict.Keys(data) then PyDict.Get(data, k)
      else PyDict.Get(cls.defaults, k)
  {
    SetAttrsSpec(cls.defaults, data, k);
  }

  /** PolicyInputFromJSON.from_json_str: the text must decode to an object. */
  function FromJsonStr(cls: InputClass, text: string, parseJson: string -> Result<Json.Json>): (r: Result<Attrs>)
    ensures parseJson(text).Ok? && !parseJson(text).value.JObj? ==> r.Err? && r.error.ValueError?
    ensures parseJson(text).Ok? && parseJson(text).value.JObj? ==> r == FromJson(cls, parseJson(text).value.fields)
    ensures parseJson(text).Err? ==> r == Err(parseJson(text).error)
  {
    var data :- parseJson(text);
    if !data.JObj? then Err(ValueError("loaded JSON is not a dict"))
    else FromJson(cls, data.fields)
  }

  /** PolicyInput.loads: JSON first, YAML only when JSON fails, a ValueError
    * only when both fail; a decoded value that is not a dict is a
    * TypeError; then the instance is built as from_json builds it. */
  function Loads(cls: InputClass, body: string, parseJson: string -> Result<Json.Json>,
                 parseYaml: string -> Result<Json.Json>): (r: Result<Attrs>)
    ensures parseJson(body).Err? && parseYaml(body).Err? ==> r.Err? && r.error.ValueError?
  {
    var data :-
      match parseJson(body)
      case Ok(j) => Ok(j)
      case Err(_) =>
        match parseYaml(body)
        case Ok(y) => Ok(y)
        case Err(_) => Err(ValueError("failed to load PolicyInput; json error and yaml error"));
    if !data.JObj? then Err(TypeError("loaded PolicyInput must be dict type"))
    else FromJson(cls, data.fields)
  }

  /** Text JSON accepts is never handed to the YAML parser. */
  lemma LoadsPrefersJson(cls: InputClass, body: string, parseJson: string -> Result<Json.Json>,
                         yaml1: string -> Result<Json.Json>, yaml2: string -> Result<Json.Json>)
    requires parseJson(body).Ok?
    ensures Loads(cls, body, parseJson, yaml1) == Loads(cls, body, parseJson, yaml2)
  {
  }

  /** Whichever parser decodes the text, a non-dict value is a TypeError,
    * raised before the class is ever instantiated. */
  lemma LoadsRejectsNonDict(cls: InputClass, body: string, parseJson: string -> Result<Json.Json>,
                            parseYaml: string -> Result<Json.Json>, v: Json.Json)
    requires parseJson(body) == Ok(v) || (parseJson(body).Err? && parseYaml(body) == Ok(v))
    requires !v.JObj?
    ensures Loads(cls, body, parseJson, parseYaml).Err?
    ensures Loads(cls, body, parseJson, parseYaml).error.TypeError?
  {
  }

  /** Loading a dict through either parser is from_json of that dict. */
  lemma LoadsIsFromJson(cls: InputClass, body: string, parseJson: string -> Result<Json.Json>,
                        parseYaml: string -> Result<Json.Json>, fields: Attrs)
    requires parseJson(body) == Ok(Json.JObj(fields)) || (parseJson(body).Err? && parseYaml(body) == Ok(Json.JObj(fields)))
    ensures Loads(cls, body, parseJson, parseYaml) == FromJson(cls, fields)
  {
  }

  /** PolicyInput.dumps: the class's to_dict() when it succeeds, otherwise
    * the instance itself, encoded; a format other than "json" returns None. */
  function Dumps(inst: Attrs, format: string, toDict: Attrs -> Option<Json.Json>,
                 encode: Json.Json -> string): (r: Option<string>)
    ensures r.Some? <==> format == "json"
    ensures format == "json" && toDict(inst).Some? ==> r == Some(encode(toDict(inst).value))
    ensures format == "json" && toDict(inst).None? ==> r == Some(encode(Json.JObj(inst)))
  {
    if format != "json" then None
    else
      var data := match toDict(inst) case Some(d) => d case None => Json.JObj(inst);
      Some(encode(data))
  }
}
