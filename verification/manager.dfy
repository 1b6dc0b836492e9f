/** The shared catalog manager (`DatabaseManagerBase` in
    `database_manager/main.py`) as its users meet it: how the one instance
    is obtained, which attribute names it has, and how a call made with
    keyword arguments binds to a method's parameters. A wrong keyword or
    name is the exception Python raises at the call. */
module SharedManager {
  import opened Wrappers

  /** An exception escaping a call. `StopIteration` is the one a
      generator raises when it is resumed after its last value. */
  datatype Exception = TypeError | AttributeError | RuntimeError | StopIteration

  // Binding keyword arguments.

  /** The first keyword that names none of the parameters. */
  function Undeclared(params: seq<string>, keywords: seq<string>): (r: Option<string>)
    ensures r.None? <==> forall i :: 0 <= i < |keywords| ==> keywords[i] in params
    ensures r.Some? ==> r.value in keywords && r.value !in params
  {
    if keywords == [] then None
    else if keywords[0] !in params then Some(keywords[0])
    else Undeclared(params, keywords[1..])
  }

  /** The first parameter that no keyword binds. */
  function Unbound(params: seq<string>, keywords: seq<string>): (r: Option<string>)
    ensures r.None? <==> forall j :: 0 <= j < |params| ==> params[j] in keywords
    ensures r.Some? ==> r.value in params && r.value !in keywords
  {
    if params == [] then None
    else if params[0] !in keywords then Some(params[0])
    else Unbound(params[1..], keywords)
  }

  /** A call made with keyword arguments alone, of a method whose first
      `required` parameters have no default: a keyword the method does not
      declare raises TypeError, and so does a required parameter left
      unbound. */
  function Bind(params: seq<string>, required: nat, keywords: seq<string>): (r: Result<(), Exception>)
    requires required <= |params|
    ensures r.Ok? <==>
      (forall i :: 0 <= i < |keywords| ==> keywords[i] in params) && (forall j :: 0 <= j < required ==> params[j] in keywords)
    ensures r.Err? ==> r.error == TypeError
  {
    var front := params[..required];
    assert forall j :: 0 <= j < required ==> front[j] == params[j];
    if Undeclared(params, keywords).Some? || Unbound(front, keywords).Some? then Err(TypeError) else Ok(())
  }

  // Obtaining the manager.

  /** `get_instance(cls)`: the class is its only parameter, so a keyword
      argument raises TypeError; otherwise the one shared instance is
      handed out, created on first use. */
  function GetInstance(keywords: seq<string>): (r: Result<(), Exception>)
    ensures r.Ok? <==> keywords == []
    ensures r.Err? ==> r.error == TypeError
  {
    var r := Bind([], 0, keywords);
    assert keywords != [] ==> keywords[0] !in [];
    r
  }

  /** Building the class (or a subclass) directly: `__init__` declares no
      parameter, so a keyword argument raises TypeError, and without one
      its body raises RuntimeError. The constructor never yields an
      instance. */
  function Construct(keywords: seq<string>): (r: Exception)
    ensures r == TypeError <==> keywords != []
    ensures r == RuntimeError <==> keywords == []
  {
    match Bind([], 0, keywords)
    case Err(e) => e
    case Ok(_) => RuntimeError
  }

  // Attributes.

  /** The names an initialised manager has: the class's signals and
      methods, and what `_initialize` and its helpers assign. */
  const Attributes: set<string> := {
    "_instance", "_logger",
    "_update_progress_dialog_signal", "_write_thread_closed_signal", "_read_operation_finished_signal",
    "get_instance", "__init__", "_initialize", "_call_callback", "_create_progress_dialog",
    "_create_tables_if_not_exist", "_delete_progress_dialog", "_execute_pragma", "_parse_filter_clause",
    "_read", "_read_context_manager", "_remove_databases", "_threaded_execute_read_queries",
    "_threaded_execute_write_queries", "_update_progress_dialog_slot", "_wait_for_database_operations",
    "_write", "_write_context_manager", "clean_up", "get",
    "insert_into_artists", "insert_into_characters", "insert_into_galleries", "insert_into_groups",
    "insert_into_languages", "insert_into_series", "insert_into_sources", "insert_into_tags",
    "insert_into_types",
    "_queries_iter", "_ands_pattern", "_type_and_or_vals_pattern", "_or_vals_remove_quotes_pattern",
    "_or_vals_commas_pattern", "write_query_queue", "read_query_queue", "_database_file_path",
    "_progress_dialog"}

  /** The three signals, under the names the class declares. */
  const Signals: seq<string> :=
    ["_update_progress_dialog_signal", "_write_thread_closed_signal", "_read_operation_finished_signal"]

  /** Looking names up one after another, on the manager directly or
      through a service manager's `__getattr__`: the first missing name
      raises AttributeError. */
  function LookupAll(names: seq<string>): (r: Result<(), Exception>)
    ensures r.Ok? <==> forall i :: 0 <= i < |names| ==> names[i] in Attributes
    ensures r.Err? ==> r.error == AttributeError
  {
    if names == [] then Ok(())
    else if names[0] !in Attributes then Err(AttributeError)
    else LookupAll(names[1..])
  }

  /** Every signal is private: it is an attribute, and the same name
      without its leading underscore is not. */
  lemma SignalsPrivate(i: nat)
    requires i < |Signals|
    ensures Signals[i] in Attributes && Signals[i][0] == '_' && Signals[i][1..] !in Attributes
  {
  }

  /** Connecting the write-closed and read-finished signals: under their
      declared names both resolve; under the names without the underscore
      the first already raises. */
  lemma ConnectedSignals()
    ensures LookupAll([Signals[1], Signals[2]]) == Ok(())
    ensures LookupAll([Signals[1][1..], Signals[2][1..]]) == Err(AttributeError)
  {
    SignalsPrivate(1);
    SignalsPrivate(2);
    assert [Signals[1], Signals[2]][1..] == [Signals[2]];
    assert LookupAll([Signals[2]]) == Ok(());
  }

  // Reading.

  /** `get`'s parameters in order; only `callback` has no default. */
  const GetParameters: seq<string> := ["callback", "select", "join", "filter_clause", "limit", "offset"]

  /** A call of `get` made with keyword arguments: it binds exactly when
      it names `callback` and nothing `get` does not declare. */
  function CallGet(keywords: seq<string>): (r: Result<(), Exception>)
    ensures r.Ok? <==> "callback" in keywords && forall i :: 0 <= i < |keywords| ==> keywords[i] in GetParameters
    ensures r.Err? ==> r.error == TypeError
  {
    var r := Bind(GetParameters, 1, keywords);
    assert GetParameters[0] == "callback";
    r
  }

  /** The explorer's calls name `count`, `get_callback` and
      `count_callback`, which `get` does not declare, so each raises. */
  lemma ExplorerGetRaises(more: seq<string>)
    ensures CallGet(["count", "get_callback", "count_callback", "limit"] + more) == Err(TypeError)
  {
    assert "count" !in GetParameters;
  }
}
