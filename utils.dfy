/** The values the agent's tools exchange, and the `safe_tool` decorator
    (utils.py) that turns a tool's exception into an error dictionary. */
module Utils {

  /** Python's `None` or a value. */
  datatype Option<T> = None | Some(value: T)

  /** A value stored in a tool's result dictionary. */
  datatype Value = Str(s: string) | Bool(b: bool)

  /** A tool's result: a dictionary from string keys to values. */
  type Dict = map<string, Value>

  /** What a call of a Python function does: it returns a value, or it raises
      an exception of a subclass of `Exception` whose `str()` is `msg`. Other
      `BaseException`s (`KeyboardInterrupt`, `SystemExit`, cancellation) are
      not represented: `safe_tool` does not catch them. */
  datatype Outcome<T> = Returned(value: T) | Raised(msg: string)

  /** The text `safe_tool` reports for a failed tool: "Tool <name> failed: <msg>".
      The name and the message sit at fixed places, so both can be read back. */
  function ErrorText(name: string, msg: string): (text: string)
    ensures |text| == 14 + |name| + |msg|
    ensures text[..5] == "Tool "
    ensures text[5..5 + |name|] == name
    ensures text[5 + |name|..14 + |name|] == " failed: "
    ensures text[14 + |name|..] == msg
  {
    "Tool " + name + " failed: " + msg
  }

  /** `safe_tool` applied to one call whose outcome is `o`: a normal result
      passes through unchanged; an `Exception` becomes a dictionary whose
      single key is "error". */
  function SafeTool(name: string, o: Outcome<Dict>): (r: Dict)
    ensures o.Returned? ==> r == o.value
    ensures o.Raised? ==> r.Keys == {"error"} && r["error"] == Str(ErrorText(name, o.msg))
  {
    match o
    case Returned(v) => v
    case Raised(msg) => map["error" := Str(ErrorText(name, msg))]
  }

  /** The decorated function: `safe_tool` named `name` around the tool `f`. Every
      argument is handed to `f` unchanged, and the wrapper gives a dictionary
      for every argument, whether the call of `f` returns or raises an
      `Exception`. */
  function Wrap<A(!new)>(name: string, f: A -> Outcome<Dict>): (g: A -> Dict)
    ensures forall a :: f(a).Returned? ==> g(a) == f(a).value
    ensures forall a :: f(a).Raised? ==>
      g(a).Keys == {"error"} && g(a)["error"] == Str(ErrorText(name, f(a).msg))
  {
    a => SafeTool(name, f(a))
  }
}
