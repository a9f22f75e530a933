/**
 * `validate_scaffold`: checks, in order, that a generation result has a
 * `system_design` key, a `component_tree` key, and that `"folders"` is in
 * the component tree. Only presence is checked, never the values.
 */
module Validator {
  import opened Wrappers
  import opened Strings
  import opened Json

  const SystemDesignKey := "system_design"
  const ComponentTreeKey := "component_tree"
  const FoldersKey := "folders"

  /** The exceptions `validate_scaffold` raises. */
  datatype ValidationError =
    | MissingSystemDesign
    | MissingComponentTree
    | MissingFolders
      /** `in` on a number, a boolean or `None` raises `TypeError`. */
    | NotIterable(typeName: string)
  {
    /** The message the exception carries. */
    function Message(): string {
      match this
      case MissingSystemDesign => "Missing system_design"
      case MissingComponentTree => "Missing component_tree"
      case MissingFolders => "component_tree must contain folders"
      case NotIterable(t) => "argument of type '" + t + "' is not iterable"
    }
  }

  /** Python's name for the type of a value that `in` cannot search. */
  function TypeName(v: Value): string {
    match v
    case Num(_) => "int"
    case Float(_) => "float"
    case Bool(_) => "bool"
    case Null => "NoneType"
    case Str(_) => "str"
    case Arr(_) => "list"
    case Obj(_) => "dict"
  }

  /**
   * Python's `key in container` for a decoded value: a key of a `dict`, an
   * element of a `list`, a substring of a `str`; `None` where it raises.
   */
  function PyIn(key: string, container: Value): (r: Option<bool>)
    ensures r.None? <==> !(container.Obj? || container.Arr? || container.Str?)
    ensures container.Obj? ==> r == Some(key in container.fields)
    ensures container.Arr? ==> r == Some(Str(key) in container.items)
    ensures container.Str? ==> r == Some(Occurs(container.s, key))
  {
    match container
    case Obj(fields) => Some(key in fields)
    case Arr(items) => Some(Str(key) in items)
    case Str(s) =>
      ContainsIff(s, key);
      Some(Contains(s, key))
    case _ => None
  }

  /** `validate_scaffold(result)`: `True`, or the first failed check. */
  function ValidateScaffold(result: map<string, Value>): (r: Result<bool, ValidationError>)
    ensures r.Success? <==>
      SystemDesignKey in result && ComponentTreeKey in result && PyIn(FoldersKey, result[ComponentTreeKey]) == Some(true)
    ensures r.Success? ==> r.value
    ensures SystemDesignKey !in result ==> r == Failure(MissingSystemDesign)
    ensures SystemDesignKey in result && ComponentTreeKey !in result ==> r == Failure(MissingComponentTree)
    ensures SystemDesignKey in result && ComponentTreeKey in result && PyIn(FoldersKey, result[ComponentTreeKey]) == Some(false)
      ==> r == Failure(MissingFolders)
    ensures SystemDesignKey in result && ComponentTreeKey in result && PyIn(FoldersKey, result[ComponentTreeKey]).None?
      ==> r == Failure(NotIterable(TypeName(result[ComponentTreeKey])))
  {
    if SystemDesignKey !in result then Failure(MissingSystemDesign)
    else if ComponentTreeKey !in result then Failure(MissingComponentTree)
    else
      match PyIn(FoldersKey, result[ComponentTreeKey])
      case None => Failure(NotIterable(TypeName(result[ComponentTreeKey])))
      case Some(false) => Failure(MissingFolders)
      case Some(true) => Success(true)
  }

  /**
   * For a component tree that is a `dict`, the result is accepted exactly
   * when the three keys are present, whatever their values are.
   */
  lemma ValidateObjectTree(result: map<string, Value>)
    requires ComponentTreeKey in result && result[ComponentTreeKey].Obj?
    ensures ValidateScaffold(result).Success? <==>
      SystemDesignKey in result && FoldersKey in result[ComponentTreeKey].fields
  {
  }

  /** Only presence is checked: replacing the values of present keys never changes the verdict. */
  lemma ValidateIgnoresValues(result: map<string, Value>, design: Value, folders: Value)
    requires SystemDesignKey in result && ComponentTreeKey in result && result[ComponentTreeKey].Obj?
    ensures var tree := result[ComponentTreeKey].fields;
      var changed := result[SystemDesignKey := design][ComponentTreeKey := Obj(if FoldersKey in tree then tree[FoldersKey := folders] else tree)];
      ValidateScaffold(changed) == ValidateScaffold(result)
  {
  }

  /** An empty design and an empty folder list are accepted. */
  lemma ValidateAcceptsEmptyValues()
    ensures ValidateScaffold(map[SystemDesignKey := Str(""), ComponentTreeKey := Obj(map[FoldersKey := Arr([])])]) == Success(true)
  {
  }

  /** The checks run in order: with neither key, `system_design` is reported. */
  lemma ValidateReportsFirstMissing(result: map<string, Value>)
    requires SystemDesignKey !in result && ComponentTreeKey !in result
    ensures ValidateScaffold(result) == Failure(MissingSystemDesign)
  {
  }

  /** A `float` tree cannot be searched: the error names the type `float`. */
  lemma ValidateFloatTree(design: Value, x: real)
    ensures ValidateScaffold(map[SystemDesignKey := design, ComponentTreeKey := Float(x)]).error.Message()
      == "argument of type 'float' is not iterable"
  {
  }

  /** A string tree is searched as text: `"folders"` anywhere in it passes. */
  lemma ValidateStringTree(design: Value, pre: string, post: string)
    ensures ValidateScaffold(map[SystemDesignKey := design, ComponentTreeKey := Str(pre + FoldersKey + post)]) == Success(true)
  {
    assert IsPrefix(FoldersKey, FoldersKey + post);
    ContainsInfix(pre, FoldersKey + post, "", FoldersKey);
    assert pre + (FoldersKey + post) + "" == pre + FoldersKey + post;
    ContainsIff(pre + FoldersKey + post, FoldersKey);
  }
}
