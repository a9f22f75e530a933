/**
 * `coerce_architecture_spec`: repairs the shape of a spec dictionary returned
 * by the language model before it is validated. A string `requirements` is
 * split on newlines, a string `tech_stack` on commas (pieces trimmed, blank
 * pieces dropped), and a list `use_case` is joined with single spaces. The
 * dictionary is updated in place and returned.
 */
module SpecCoercion {
  import opened Wrappers
  import opened Strings
  import opened Json

  const RequirementsKey := "requirements"
  const TechStackKey := "tech_stack"
  const UseCaseKey := "use_case"

  /** The `TypeError` that `" ".join` raises at the first item that is not a `str`. */
  datatype CoercionError = NonStringItem(index: nat)

  /** Every piece trimmed. */
  function StripEach(parts: seq<string>): (r: seq<string>)
    ensures |r| == |parts|
  {
    seq(|parts|, i requires 0 <= i < |parts| => Strip(parts[i]))
  }

  /** `[p.strip() for p in parts if p.strip()]`: the non-blank pieces, trimmed. */
  function StripNonBlank(parts: seq<string>): (r: seq<string>)
    ensures |r| <= |parts|
    ensures forall x :: x in r ==> x != "" && IsStripped(x)
  {
    var kept := KeepNonBlank(parts);
    KeepNonBlankKeepsNoBlank(parts);
    assert forall i :: 0 <= i < |kept| ==> kept[i] in kept;
    StripEach(kept)
  }

  /** The comprehension works piece by piece, so the order of the pieces is kept. */
  lemma StripNonBlankAppend(a: seq<string>, b: seq<string>)
    ensures StripNonBlank(a + b) == StripNonBlank(a) + StripNonBlank(b)
  {
    KeepNonBlankAppend(a, b);
    var ka, kb := KeepNonBlank(a), KeepNonBlank(b);
    assert StripEach(ka + kb) == StripEach(ka) + StripEach(kb);
  }

  /** A piece is kept, stripped, exactly when it is not blank. */
  lemma StripNonBlankSingle(p: string)
    ensures StripNonBlank([p]) == if IsBlank(p) then [] else [Strip(p)]
  {
    assert [p][1..] == [];
  }

  /** Pieces that are already non-empty and stripped pass through unchanged. */
  lemma StripNonBlankClean(parts: seq<string>)
    requires forall x :: x in parts ==> x != "" && IsStripped(x)
    ensures StripNonBlank(parts) == parts
  {
    forall i | 0 <= i < |parts| ensures !IsBlank(parts[i]) && Strip(parts[i]) == parts[i] {
      assert parts[i] in parts;
      StripStripped(parts[i]);
    }
    KeepNonBlankAllKept(parts);
  }

  /** Stripping never introduces a character, so a separator-free list stays separator-free. */
  lemma StripNonBlankAvoids(parts: seq<string>, c: char)
    requires forall p :: p in parts ==> c !in p
    ensures forall x :: x in StripNonBlank(parts) ==> c !in x
  {
    var kept := KeepNonBlank(parts);
    KeepNonBlankKeepsNoBlank(parts);
    forall i | 0 <= i < |kept| ensures c !in Strip(kept[i]) {
      assert kept[i] in kept;
      StripKeepsChars(kept[i]);
    }
  }

  /** The list that a string field is coerced to: split on `sep`, trim each piece, drop blank ones. */
  function SplitClean(s: string, sep: char): (r: seq<string>)
    ensures forall x :: x in r ==> x != "" && IsStripped(x) && sep !in x
  {
    StripNonBlankAvoids(Split(s, sep), sep);
    StripNonBlank(Split(s, sep))
  }

  /** Only `sep` splits: a string without it becomes one stripped element, or none if blank. */
  lemma SplitCleanNoSeparator(s: string, sep: char)
    requires sep !in s
    ensures SplitClean(s, sep) == if IsBlank(s) then [] else [Strip(s)]
  {
    Strings.SplitPrefix(s, "", sep);
    assert s + "" == s;
    assert Split(s, sep) == [s];
    StripNonBlankSingle(s);
  }

  /** Coercing the joined form of a clean list gives the list back. */
  lemma SplitCleanJoin(parts: seq<string>, sep: char)
    requires forall x :: x in parts ==> x != "" && IsStripped(x) && sep !in x
    ensures SplitClean(Join(parts, [sep]), sep) == parts
  {
    if parts == [] {
      assert Split("", sep) == [""];
      StripNonBlankSingle("");
    } else {
      SplitJoin(parts, sep);
      StripNonBlankClean(parts);
    }
  }

  /** Python `str` values for a list of strings. */
  function Strs(xs: seq<string>): (r: seq<Value>)
    ensures |r| == |xs|
  {
    seq(|xs|, i requires 0 <= i < |xs| => Str(xs[i]))
  }

  /** The index of the first item that is not a `str`, or the length when there is none. */
  function FirstNonString(items: seq<Value>): (i: nat)
    ensures i <= |items|
    ensures forall j :: 0 <= j < i ==> items[j].Str?
    ensures i < |items| ==> !items[i].Str?
    decreases |items|
  {
    if items == [] then 0
    else if !items[0].Str? then 0
    else 1 + FirstNonString(items[1..])
  }

  /** The texts of a list of `str` values. */
  function Texts(items: seq<Value>): (r: seq<string>)
    requires forall j :: 0 <= j < |items| ==> items[j].Str?
    ensures |r| == |items| && Strs(r) == items
  {
    seq(|items|, i requires 0 <= i < |items| => items[i].s)
  }

  /** `sep.join(items)`: fails at the first item that is not a `str`. */
  function JoinValues(items: seq<Value>, sep: string): (r: Result<string, CoercionError>)
    ensures r.Success? <==> forall j :: 0 <= j < |items| ==> items[j].Str?
    ensures r.Success? ==> r.value == Join(Texts(items), sep)
    ensures r.Failure? ==> r.error.index < |items| && !items[r.error.index].Str?
    ensures r.Failure? ==> forall j :: 0 <= j < r.error.index ==> items[j].Str?
  {
    var i := FirstNonString(items);
    if i < |items| then Failure(NonStringItem(i)) else Success(Join(Texts(items), sep))
  }

  /** Joining words that hold no space with `" "` can be undone by splitting on `' '`. */
  lemma JoinValuesSplit(words: seq<string>)
    requires |words| >= 1
    requires forall w :: w in words ==> ' ' !in w
    ensures JoinValues(Strs(words), " ").Success?
    ensures Split(JoinValues(Strs(words), " ").value, ' ') == words
  {
    var items := Strs(words);
    assert Texts(items) == words;
    SplitJoin(words, ' ');
  }

  /** `m[key] = v` on a key that is already there. */
  function Put(m: map<string, Value>, key: string, v: Value): (r: map<string, Value>)
    requires key in m
    ensures r.Keys == m.Keys && r[key] == v
    ensures forall k :: k in m && k != key ==> r[k] == m[k]
  {
    m[key := v]
  }

  /** The list value a string field becomes. */
  function SplitField(s: string, sep: char): Value {
    Arr(Strs(SplitClean(s, sep)))
  }

  /** The `requirements` repair: a string `requirements` becomes its cleaned newline-separated pieces. */
  function CoerceRequirements(m: map<string, Value>): (r: map<string, Value>)
    ensures r.Keys == m.Keys
    ensures forall k :: k in m && k != RequirementsKey ==> r[k] == m[k]
    ensures RequirementsKey in m && m[RequirementsKey].Str? ==>
      r[RequirementsKey] == Arr(Strs(SplitClean(m[RequirementsKey].s, '\n')))
    ensures RequirementsKey in m && !m[RequirementsKey].Str? ==> r[RequirementsKey] == m[RequirementsKey]
  {
    if RequirementsKey in m && m[RequirementsKey].Str? then
      Put(m, RequirementsKey, SplitField(m[RequirementsKey].s, '\n'))
    else m
  }

  /** The `tech_stack` repair: a string `tech_stack` becomes its cleaned comma-separated pieces. */
  function CoerceTechStack(m: map<string, Value>): (r: map<string, Value>)
    ensures r.Keys == m.Keys
    ensures forall k :: k in m && k != TechStackKey ==> r[k] == m[k]
    ensures TechStackKey in m && m[TechStackKey].Str? ==>
      r[TechStackKey] == Arr(Strs(SplitClean(m[TechStackKey].s, ',')))
    ensures TechStackKey in m && !m[TechStackKey].Str? ==> r[TechStackKey] == m[TechStackKey]
  {
    if TechStackKey in m && m[TechStackKey].Str? then
      Put(m, TechStackKey, SplitField(m[TechStackKey].s, ','))
    else m
  }

  /** The `use_case` repair: a list `use_case` becomes its items joined by spaces. */
  function CoerceUseCase(m: map<string, Value>): (r: Result<map<string, Value>, CoercionError>)
    ensures r.Success? ==> r.value.Keys == m.Keys
    ensures r.Success? ==> forall k :: k in m && k != UseCaseKey ==> r.value[k] == m[k]
    ensures r.Failure? <==> UseCaseKey in m && m[UseCaseKey].Arr? && exists j :: 0 <= j < |m[UseCaseKey].items| && !m[UseCaseKey].items[j].Str?
    ensures r.Success? && UseCaseKey in m && m[UseCaseKey].Arr? ==>
      r.value[UseCaseKey] == Str(Join(Texts(m[UseCaseKey].items), " "))
    ensures r.Success? && UseCaseKey in m && !m[UseCaseKey].Arr? ==> r.value[UseCaseKey] == m[UseCaseKey]
    ensures r.Failure? ==>
      UseCaseKey in m && m[UseCaseKey].Arr? && r.error.index < |m[UseCaseKey].items|
      && !m[UseCaseKey].items[r.error.index].Str?
      && forall j :: 0 <= j < r.error.index ==> m[UseCaseKey].items[j].Str?
  {
    if UseCaseKey in m && m[UseCaseKey].Arr? then
      match JoinValues(m[UseCaseKey].items, " ")
      case Success(text) => Success(Put(m, UseCaseKey, Str(text)))
      case Failure(e) => Failure(e)
    else Success(m)
  }

  /** The two list repairs, which always succeed and are applied first. */
  function CoerceLists(m: map<string, Value>): map<string, Value> {
    CoerceTechStack(CoerceRequirements(m))
  }

  /** `use_case` is a list with an item that is not a `str`, so the join raises. */
  ghost predicate UseCaseUnjoinable(m: map<string, Value>) {
    UseCaseKey in m && m[UseCaseKey].Arr?
    && exists j :: 0 <= j < |m[UseCaseKey].items| && !m[UseCaseKey].items[j].Str?
  }

  /** The dictionary `coerce_architecture_spec` returns, or the error it raises. */
  function Coerce(m: map<string, Value>): (r: Result<map<string, Value>, CoercionError>)
    ensures r.Failure? <==> UseCaseUnjoinable(m)
    ensures r.Success? ==> r.value.Keys == m.Keys
    ensures r.Success? ==> forall k :: k in m && k !in {RequirementsKey, TechStackKey, UseCaseKey} ==> r.value[k] == m[k]
    ensures r.Success? && RequirementsKey in m ==>
      r.value[RequirementsKey] == if m[RequirementsKey].Str? then SplitField(m[RequirementsKey].s, '\n') else m[RequirementsKey]
    ensures r.Success? && TechStackKey in m ==>
      r.value[TechStackKey] == if m[TechStackKey].Str? then SplitField(m[TechStackKey].s, ',') else m[TechStackKey]
    ensures r.Success? && UseCaseKey in m && m[UseCaseKey].Arr? ==>
      r.value[UseCaseKey] == Str(Join(Texts(m[UseCaseKey].items), " "))
    ensures r.Success? && UseCaseKey in m && !m[UseCaseKey].Arr? ==> r.value[UseCaseKey] == m[UseCaseKey]
    ensures r.Failure? ==>
      UseCaseKey in m && m[UseCaseKey].Arr? && r.error.index < |m[UseCaseKey].items|
      && !m[UseCaseKey].items[r.error.index].Str?
      && forall j :: 0 <= j < r.error.index ==> m[UseCaseKey].items[j].Str?
  {
    CoerceUseCase(CoerceLists(m))
  }

  /** Coercing a coerced dictionary changes nothing. */
  lemma CoerceIdempotent(m: map<string, Value>)
    requires Coerce(m).Success?
    ensures Coerce(Coerce(m).value) == Coerce(m)
  {
    var m' := Coerce(m).value;
    assert CoerceRequirements(m') == m';
    assert CoerceTechStack(m') == m';
    assert CoerceUseCase(m') == Success(m');
  }

  /** A Python `dict` whose entries are replaced in place. */
  class SpecDict {
    var entries: map<string, Value>

    constructor (entries: map<string, Value>)
      ensures this.entries == entries
    {
      this.entries := entries;
    }
  }

  /**
   * `coerce_architecture_spec(data)`: updates `data` in place and returns it.
   * When the join raises, the two list repairs have already been written.
   */
  method CoerceArchitectureSpec(data: SpecDict) returns (r: Result<SpecDict, CoercionError>)
    modifies data
    ensures r.Success? <==> Coerce(old(data.entries)).Success?
    ensures r.Success? ==> r.value == data && data.entries == Coerce(old(data.entries)).value
    ensures r.Failure? ==> r.error == Coerce(old(data.entries)).error
    ensures r.Failure? ==> data.entries == CoerceLists(old(data.entries))
  {
    if RequirementsKey in data.entries && data.entries[RequirementsKey].Str? {
      data.entries := Put(data.entries, RequirementsKey, SplitField(data.entries[RequirementsKey].s, '\n'));
    }
    if TechStackKey in data.entries && data.entries[TechStackKey].Str? {
      data.entries := Put(data.entries, TechStackKey, SplitField(data.entries[TechStackKey].s, ','));
    }
    if UseCaseKey in data.entries && data.entries[UseCaseKey].Arr? {
      var joined := JoinValues(data.entries[UseCaseKey].items, " ");
      if joined.Failure? {
        return Failure(joined.error);
      }
      data.entries := Put(data.entries, UseCaseKey, Str(joined.value));
    }
    return Success(data);
  }

  /** A blank piece contributes nothing, wherever it stands. */
  lemma StripNonBlankDropsBlank(a: seq<string>, p: string, b: seq<string>)
    requires IsBlank(p)
    ensures StripNonBlank(a + [p] + b) == StripNonBlank(a + b)
  {
    StripNonBlankAppend(a + [p], b);
    StripNonBlankAppend(a, [p]);
    StripNonBlankSingle(p);
    StripNonBlankAppend(a, b);
    assert StripNonBlank(a) + [] == StripNonBlank(a);
  }

  /** Three separator-free pieces around a single and a doubled separator. */
  lemma SplitThreePieces(x: string, y: string, z: string, sep: char)
    requires sep !in x && sep !in y && sep !in z
    ensures Split(x + [sep] + y + [sep, sep] + z, sep) == [x, y, "", z]
  {
    var parts := [x, y, "", z];
    assert parts[1..] == [y, "", z] && parts[1..][1..] == ["", z] && parts[1..][1..][1..] == [z];
    assert Join(["", z], [sep]) == "" + [sep] + z;
    assert Join(parts, [sep]) == x + [sep] + (y + [sep] + ("" + [sep] + z));
    assert x + [sep] + (y + [sep] + ("" + [sep] + z)) == x + [sep] + y + [sep, sep] + z;
    SplitJoin(parts, sep);
  }

  /** Three non-blank pieces are all kept, trimmed. */
  lemma StripNonBlankTriple(x: string, y: string, z: string)
    requires !IsBlank(x) && !IsBlank(y) && !IsBlank(z)
    ensures StripNonBlank([x, y] + [z]) == [Strip(x), Strip(y), Strip(z)]
  {
    var parts := [x, y, z];
    assert [x, y] + [z] == parts;
    KeepNonBlankAllKept(parts);
    assert StripEach(parts) == [Strip(x), Strip(y), Strip(z)];
  }

  /** The empty piece between them is dropped. */
  lemma StripNonBlankThree(x: string, y: string, z: string)
    requires !IsBlank(x) && !IsBlank(y) && !IsBlank(z)
    ensures StripNonBlank([x, y, "", z]) == [Strip(x), Strip(y), Strip(z)]
  {
    assert [x, y, "", z] == [x, y] + [""] + [z];
    StripNonBlankDropsBlank([x, y], "", [z]);
    StripNonBlankTriple(x, y, z);
  }

  /** Three non-blank pieces around a doubled separator: trimmed, with the empty piece dropped. */
  lemma SplitCleanThreePieces(x: string, y: string, z: string, sep: char)
    requires sep !in x && sep !in y && sep !in z
    requires !IsBlank(x) && !IsBlank(y) && !IsBlank(z)
    ensures SplitClean(x + [sep] + y + [sep, sep] + z, sep) == [Strip(x), Strip(y), Strip(z)]
  {
    SplitThreePieces(x, y, z, sep);
    StripNonBlankThree(x, y, z);
  }

  // The example lemmas below take their literal input as a parameter pinned
  // by `requires`. Stated about the literal itself, the verifier unfolds the
  // recursive string functions on it eagerly and runs out of resources.

  /** `"a\nb\n\nc"` as `requirements` becomes `["a", "b", "c"]`. */
  lemma RequirementsExample(s: string)
    requires s == "a\nb\n\nc"
    ensures SplitClean(s, '\n') == ["a", "b", "c"]
  {
    assert s == "a" + ['\n'] + "b" + ['\n', '\n'] + "c";
    assert !IsSpace("a"[0]) && !IsSpace("b"[0]) && !IsSpace("c"[0]);
    SplitCleanThreePieces("a", "b", "c", '\n');
    StripStripped("a");
    StripStripped("b");
    StripStripped("c");
  }

  /** `" y".strip()` is `"y"`. */
  lemma StripLeadingSpace(t: string)
    requires t == " y"
    ensures Strip(t) == "y"
  {
    assert t == " " + "y" + "";
    StripPadded(" ", "y", "");
  }

  /** `"x, y,,z"` as `tech_stack` becomes `["x", "y", "z"]`. */
  lemma TechStackExample(s: string)
    requires s == "x, y,,z"
    ensures SplitClean(s, ',') == ["x", "y", "z"]
  {
    assert s == "x" + [','] + " y" + [',', ','] + "z";
    assert !IsSpace("x"[0]) && !IsSpace(" y"[1]) && !IsSpace("z"[0]);
    SplitCleanThreePieces("x", " y", "z", ',');
    StripStripped("x");
    StripLeadingSpace(" y");
    StripStripped("z");
  }

  /** `requirements` is split only on newlines: `"a, b"` stays one element. */
  lemma RequirementsKeepsCommas(s: string)
    requires s == "a, b"
    ensures SplitClean(s, '\n') == ["a, b"]
  {
    assert '\n' !in s;
    assert !IsSpace(s[0]) && !IsSpace(s[|s| - 1]);
    SplitCleanNoSeparator(s, '\n');
    StripStripped(s);
  }

  /** `["build", "a", "thing"]` as `use_case` becomes `"build a thing"`. */
  lemma UseCaseExample(words: seq<string>)
    requires words == ["build", "a", "thing"]
    ensures JoinValues(Strs(words), " ") == Success("build a thing")
  {
    var items := Strs(words);
    assert forall j :: 0 <= j < |items| ==> items[j].Str?;
    assert Texts(items) == words;
    assert FirstNonString(items) == |items|;
    assert JoinValues(items, " ") == Success(Join(words, " "));
    assert words[1..] == ["a", "thing"] && words[1..][1..] == ["thing"];
    assert Join(["a", "thing"], " ") == "a" + " " + "thing";
    assert Join(words, " ") == "build" + " " + ("a" + " " + "thing");
    assert "build" + " " + ("a" + " " + "thing") == "build a thing";
  }
}
