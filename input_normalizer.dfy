/**
 * `InputNormalizer.normalize`: turns a request into an `ArchitectureSpec`.
 * Structured fields win when `project_name` is given; otherwise a free-form
 * prompt is expanded by the language model; with neither, the request is
 * rejected. The language model is the function `llm`, which yields `None`
 * where `expand_prompt_to_spec` raises.
 */
module Normalizer {
  import opened Wrappers
  import opened Strings
  import opened Schemas

  /** The request: every field may be missing (`None`). */
  datatype Payload = Payload(
    projectName: Option<string>,
    description: Option<string>,
    useCase: Option<string>,
    requirements: Option<seq<string>>,
    techStack: Option<seq<string>>,
    prompt: Option<string>)

  /** The `ValueError`s `normalize` raises, and a failure of the model call. */
  datatype NormalizeError = EmptyProjectName | EmptyPrompt | MissingInput | ExpansionFailed {
    function Message(): string {
      match this
      case EmptyProjectName => "Project name cannot be empty"
      case EmptyPrompt => "Prompt cannot be empty"
      case MissingInput => "Either structured fields or prompt must be provided"
      case ExpansionFailed => "expand_prompt_to_spec failed"
    }
  }

  /** `expand_prompt_to_spec`, as seen by the normaliser. */
  type Expander = string -> Option<ArchitectureSpec>

  /** `text or ""`. */
  function TextOrEmpty(text: Option<string>): string {
    if text.Some? then text.value else ""
  }

  /** `items or []`. */
  function ListOrEmpty(items: Option<seq<string>>): seq<string> {
    if items.Some? then items.value else []
  }

  /** The structured branch of `normalize`: the spec built from the given fields. */
  function StructuredSpec(p: Payload): (s: ArchitectureSpec)
    requires p.projectName.Some?
  {
    ArchitectureSpec(
      projectName := Strip(p.projectName.value),
      description := Strip(TextOrEmpty(p.description)),
      useCase := Strip(TextOrEmpty(p.useCase)),
      requirements := KeepNonBlank(ListOrEmpty(p.requirements)),
      techStack := KeepNonBlank(ListOrEmpty(p.techStack)),
      inferred := false)
  }

  /** What `normalize(payload)` returns or raises. */
  function Normalized(llm: Expander, p: Payload): (r: Result<ArchitectureSpec, NormalizeError>)
    // structured branch
    ensures p.projectName.Some? ==> (r.Failure? <==> IsBlank(p.projectName.value))
    ensures p.projectName.Some? && r.Failure? ==> r.error == EmptyProjectName
    ensures p.projectName.Some? && r.Success? ==>
      && r.value.projectName == Strip(p.projectName.value) && r.value.projectName != ""
      && r.value.description == Strip(TextOrEmpty(p.description))
      && r.value.useCase == Strip(TextOrEmpty(p.useCase))
      && IsStripped(r.value.projectName)
      && IsStripped(r.value.description) && IsStripped(r.value.useCase)
      && (p.description.None? ==> r.value.description == "")
      && (p.useCase.None? ==> r.value.useCase == "")
      && r.value.requirements == KeepNonBlank(ListOrEmpty(p.requirements))
      && r.value.techStack == KeepNonBlank(ListOrEmpty(p.techStack))
      && !r.value.inferred
    // prompt branch
    ensures p.projectName.None? && p.prompt.Some? && IsBlank(p.prompt.value) ==> r == Failure(EmptyPrompt)
    ensures p.projectName.None? && p.prompt.Some? && !IsBlank(p.prompt.value) ==>
      (r.Success? <==> llm(Strip(p.prompt.value)).Some?)
    ensures p.projectName.None? && p.prompt.Some? && r.Success? ==>
      && r.value.inferred
      && r.value == llm(Strip(p.prompt.value)).value.(inferred := true)
    ensures p.projectName.None? && p.prompt.Some? && r.Failure? && !IsBlank(p.prompt.value) ==> r.error == ExpansionFailed
    // neither
    ensures p.projectName.None? && p.prompt.None? ==> r == Failure(MissingInput)
  {
    if p.projectName.Some? then
      if Strip(p.projectName.value) == "" then Failure(EmptyProjectName)
      else Success(StructuredSpec(p))
    else if p.prompt.Some? then
      if Strip(p.prompt.value) == "" then Failure(EmptyPrompt)
      else
        match llm(Strip(p.prompt.value))
        case Some(spec) => Success(spec.(inferred := true))
        case None => Failure(ExpansionFailed)
    else Failure(MissingInput)
  }

  /** With `project_name` given, neither the prompt nor the model affects the outcome. */
  lemma StructuredIgnoresPromptAndModel(llm: Expander, llm': Expander, p: Payload, prompt': Option<string>)
    requires p.projectName.Some?
    ensures Normalized(llm', p.(prompt := prompt')) == Normalized(llm, p)
  {
  }

  /** Every successful outcome is marked inferred exactly when no `project_name` was given. */
  lemma InferredIffPrompt(llm: Expander, p: Payload)
    requires Normalized(llm, p).Success?
    ensures Normalized(llm, p).value.inferred <==> p.projectName.None?
  {
  }

  /** A spec as structured input: every field given, no prompt. */
  function AsPayload(s: ArchitectureSpec): Payload {
    Payload(Some(s.projectName), Some(s.description), Some(s.useCase), Some(s.requirements), Some(s.techStack), None)
  }

  /** Normalising the output of the structured branch again gives the same spec. */
  lemma NormalizeIdempotent(llm: Expander, llm': Expander, p: Payload)
    requires p.projectName.Some? && Normalized(llm, p).Success?
    ensures Normalized(llm', AsPayload(Normalized(llm, p).value)) == Normalized(llm, p)
  {
    var s := Normalized(llm, p).value;
    StripIdempotent(p.projectName.value);
    StripIdempotent(TextOrEmpty(p.description));
    StripIdempotent(TextOrEmpty(p.useCase));
    KeepNonBlankIdempotent(ListOrEmpty(p.requirements));
    KeepNonBlankIdempotent(ListOrEmpty(p.techStack));
    assert StructuredSpec(AsPayload(s)) == s;
  }

  /** `InputNormalizer`: holds the model used for prompt expansion. */
  class InputNormalizer {
    const llm: Expander

    constructor (llm: Expander)
      ensures this.llm == llm
    {
      this.llm := llm;
    }

    /** `normalize(payload)`, step by step: the spec the model returns is marked inferred before it is returned. */
    method Normalize(payload: Payload) returns (r: Result<ArchitectureSpec, NormalizeError>)
      ensures r == Normalized(llm, payload)
    {
      if payload.projectName.Some? {
        if Strip(payload.projectName.value) == "" {
          return Failure(EmptyProjectName);
        }
        return Success(StructuredSpec(payload));
      }
      if payload.prompt.Some? {
        var prompt := Strip(payload.prompt.value);
        if prompt == "" {
          return Failure(EmptyPrompt);
        }
        var expanded := llm(prompt);
        if expanded.None? {
          return Failure(ExpansionFailed);
        }
        var spec := expanded.value;
        spec := spec.(inferred := true);
        return Success(spec);
      }
      return Failure(MissingInput);
    }
  }
}
