# KafeiBackend request and reply handling, in Dafny

KafeiBackend turns a user's request into a software architecture by asking
a large language model. The code around the model calls is deterministic,
and this project models it:

- **Spec coercion** (`coerce_architecture_spec`, module `SpecCoercion`)
  repairs the shape of a spec dictionary that the model returned, in place.
  - A string `requirements` is split on newlines.
  - A string `tech_stack` is split on commas.
  - In both, each piece is trimmed and blank pieces are dropped.
  - A list `use_case` is joined with single spaces.
- **Input normalisation** (`InputNormalizer.normalize`, modules `Normalizer`
  and `Schemas`) turns a request into an `ArchitectureSpec`.
  - Structured fields win when `project_name` is given. They are trimmed
    and filtered, and the spec is marked not inferred.
  - Otherwise a free-form prompt is trimmed and expanded by the model, and
    the spec the model returns is marked inferred.
  - Each shape of bad input raises its own error.
- **Fence stripping** (`safe_json_loads`, module `JsonFix`) removes Markdown
  code fences from model output, trims it and parses it as JSON. A second
  cleaning and parse follows when the first parse fails.
- **Scaffold validation** (`validate_scaffold`, module `Validator`) checks,
  in order, that a generation result has `system_design`, `component_tree`,
  and `"folders"` inside the component tree.
- **Intent detection** (`IntentService.detect`, module `Intents`) classifies
  a message as architecture generation when its lower-cased text contains
  one of nine keywords, and as chat otherwise.

Shared modules:

- `Strings` models the Python string operations the code relies on:
  - `str.strip()`, with Python's whitespace set;
  - `str.split(sep)` and `sep.join(parts)`;
  - ASCII `str.lower()`;
  - the substring test `k in s`, by a recursive `Contains` checked against
    a positional reference definition `Occurs`;
  - the comprehension filter `[p for p in parts if p.strip()]`.
- `Json` holds decoded JSON values.
- `Wrappers` holds `Option` and `Result`.

Exceptions become `Failure` values. Where the source spells out an
exception's message, the error datatype's `Message()` gives that text.

Two parts of the system are function-typed parameters, not code:

- The model's `expand_prompt_to_spec` is `llm: string -> Option<ArchitectureSpec>`.
  `None` stands for a call that raised.
- `json.loads` is `parse: string -> Option<Value>`. `None` stands for
  `JSONDecodeError`.

State that the source updates in place is modelled imperatively:

- `coerce_architecture_spec` is the method
  `SpecCoercion.CoerceArchitectureSpec`. It updates the `entries` map of a
  `SpecDict` object and returns that same object. It is proved against the
  pure function `SpecCoercion.Coerce`, which all the lemmas use.
- `InputNormalizer` is a class. Its model is a `const` field.
  `InputNormalizer.Normalize` follows `normalize` step by step, and is
  proved equal to the function `Normalizer.Normalized`.

The model follows what the code does, also where a reader might expect
more:

- One might expect `component_tree` to be optional and its contents to be
  checked. The code requires `component_tree` and checks only that the keys
  are present, never their values.
- One might expect `safe_json_loads` to extract the JSON region from
  surrounding prose. It only deletes fences and trims
  (`JsonFix.CleanKeepsProse`).
- Its fallback can never change the outcome. The first cleaning already
  leaves no fence, so the second cleaning returns its input unchanged, and
  the same text is parsed twice (`JsonFix.CleanTwice`,
  `JsonFix.SafeJsonLoads`).
- Coercion splits `requirements` only on newlines and `tech_stack` only on
  commas (`SpecCoercion.RequirementsKeepsCommas`).

## Model

| member | source | states |
|---|---|---|
| SpecCoercion.CoerceArchitectureSpec | app/utils/spec_coercion.py:1-22 | The dict is updated in place and the same object is returned. On success its entries are exactly `Coerce` of the old entries. When the `use_case` join raises, the error is reported and the two list repairs already written stay in the dict. |
| SpecCoercion.Coerce | app/utils/spec_coercion.py:5-22 | Fails exactly when `use_case` is a list holding a non-`str` item, and the error names the first such item's index. The key set is unchanged. Every other key is unchanged. A string `requirements` becomes its cleaned newline pieces, and a list one is left alone. A string `tech_stack` becomes its cleaned comma pieces, and a list one is left alone. A list `use_case` becomes its texts joined by spaces, and anything else is left alone. |
| SpecCoercion.CoerceIdempotent | app/utils/spec_coercion.py:5-22 | Coercing a coerced dictionary changes nothing. |
| SpecCoercion.StripNonBlank | app/utils/spec_coercion.py:6-10 | Every element the comprehension produces is non-empty and has no leading or trailing whitespace. There are at most as many elements as pieces. |
| SpecCoercion.StripNonBlankAppend | app/utils/spec_coercion.py:6-10 | The comprehension works piece by piece, so order is kept across any split of the input. |
| SpecCoercion.StripNonBlankSingle | app/utils/spec_coercion.py:7-9 | One piece is kept, trimmed, exactly when it is not blank. |
| SpecCoercion.StripNonBlankClean | app/utils/spec_coercion.py:7-9 | Pieces that are already non-empty and trimmed pass through unchanged. |
| SpecCoercion.StripNonBlankAvoids | app/utils/spec_coercion.py:7-9 | Trimming introduces no character, so pieces without the separator stay without it. |
| SpecCoercion.SplitClean | app/utils/spec_coercion.py:8-9 | Every element of the coerced list is non-empty, trimmed, and free of the separator. |
| SpecCoercion.SplitCleanNoSeparator | app/utils/spec_coercion.py:8 | A string without the separator becomes one trimmed element, or none when it is blank. |
| SpecCoercion.SplitCleanJoin | app/utils/spec_coercion.py:6-17 | Coercing the separator-joined form of a clean list gives the list back. |
| SpecCoercion.StripNonBlankDropsBlank | app/utils/spec_coercion.py:9 | A blank piece contributes nothing, wherever it stands. |
| SpecCoercion.SplitCleanThreePieces | app/utils/spec_coercion.py:6-17 | Three non-blank pieces around a single and a doubled separator give the three pieces, trimmed, with the empty piece dropped. |
| SpecCoercion.RequirementsExample | app/utils/spec_coercion.py:5-10 | `"a\nb\n\nc"` as `requirements` becomes `["a", "b", "c"]`. |
| SpecCoercion.TechStackExample | app/utils/spec_coercion.py:12-17 | `"x, y,,z"` as `tech_stack` becomes `["x", "y", "z"]`. |
| SpecCoercion.RequirementsKeepsCommas | app/utils/spec_coercion.py:8 | `requirements` splits only on newlines, so `"a, b"` stays the one element `"a, b"`. |
| SpecCoercion.JoinValues | app/utils/spec_coercion.py:20 | `" ".join` succeeds exactly when every item is a `str`, and then returns the texts joined by the separator. Otherwise it fails at the first item that is not one. |
| SpecCoercion.CoerceRequirements | app/utils/spec_coercion.py:5-10 | A string `requirements` becomes the list of its cleaned newline pieces. Any other `requirements` value, and every other key, is left as it was. The key set is unchanged. |
| SpecCoercion.CoerceTechStack | app/utils/spec_coercion.py:12-17 | A string `tech_stack` becomes the list of its cleaned comma pieces. Any other `tech_stack` value, and every other key, is left as it was. The key set is unchanged. |
| SpecCoercion.CoerceUseCase | app/utils/spec_coercion.py:19-20 | It fails exactly when `use_case` is a list holding a non-`str` item, and the error names the first such item's index. Otherwise a list `use_case` becomes its texts joined by single spaces. Any other `use_case` value, and every other key, is left as it was. |
| SpecCoercion.JoinValuesSplit | app/utils/spec_coercion.py:20 | Words without spaces, joined by `" "`, split back on `' '` into the same words. |
| SpecCoercion.UseCaseExample | app/utils/spec_coercion.py:19-20 | `["build", "a", "thing"]` as `use_case` becomes `"build a thing"`. |
| Normalizer.InputNormalizer.Normalize | app/services/input_normalizer.py:7-29 | The method, written step by step with the in-place `inferred` update, returns exactly `Normalized` for the normaliser's model. |
| Normalizer.Normalized | app/services/input_normalizer.py:7-29 | With `project_name` given, it fails with "Project name cannot be empty" exactly when that name is blank. Otherwise the spec's name, `description` and `use_case` are exactly the given ones stripped, the name is non-empty, and a missing `description` or `use_case` becomes `""`. `requirements` and `tech_stack` are the non-blank entries in order, with `[]` for a missing list, and `inferred` is false. Without `project_name`, a blank prompt fails with "Prompt cannot be empty". Otherwise the result succeeds exactly when the model accepts the trimmed prompt, and it is the model's spec with `inferred` true. With neither field, it fails with "Either structured fields or prompt must be provided". |
| Normalizer.StructuredIgnoresPromptAndModel | app/services/input_normalizer.py:8-19 | With `project_name` given, neither the prompt nor the model changes the outcome. |
| Normalizer.InferredIffPrompt | app/services/input_normalizer.py:18-26 | A returned spec is marked inferred exactly when no `project_name` was given. |
| Normalizer.NormalizeIdempotent | app/services/input_normalizer.py:12-19 | Feeding a structured-branch spec back in as structured input gives the same spec. |
| Strings.KeepNonBlank | app/services/input_normalizer.py:16-17 | The filter never lengthens the list. What it keeps is pinned by the four lemmas below. |
| Strings.KeepNonBlankMembers | app/services/input_normalizer.py:16-17 | An entry is kept exactly when it is in the list and is not blank. |
| Strings.KeepNonBlankAppend | app/services/input_normalizer.py:16-17 | The filter works entry by entry, so kept entries stay in their order. |
| Strings.KeepNonBlankIdempotent | app/services/input_normalizer.py:16-17 | Filtering a filtered list changes nothing. |
| Strings.KeepNonBlankAllKept | app/services/input_normalizer.py:16-17 | A list without blank entries passes the filter unchanged. Kept entries are not trimmed. |
| Strings.TrimStart | app/services/input_normalizer.py:9 | The left half of `strip()` never lengthens the text. |
| Strings.TrimStartFacts | app/services/input_normalizer.py:9 | The left half of `strip()` drops exactly the leading whitespace. The result is a suffix of the text, everything dropped is whitespace, and the result does not start with whitespace. |
| Strings.TrimEnd | app/services/input_normalizer.py:9 | The right half of `strip()` never lengthens the text. |
| Strings.TrimEndFacts | app/services/input_normalizer.py:9 | The right half of `strip()` drops exactly the trailing whitespace. The result is a prefix of the text, everything dropped is whitespace, and the result does not end with whitespace. |
| Strings.Strip | app/services/input_normalizer.py:9 | `strip()` leaves no outer whitespace. It is empty exactly when the text is blank, and it is never longer than the text. |
| Strings.StripInfix | app/services/input_normalizer.py:13 | The stripped text is a contiguous part of the original. |
| Strings.StripKeepsChars | app/utils/spec_coercion.py:7 | `strip()` only removes characters. |
| Strings.StripIdempotent | app/services/input_normalizer.py:13-15 | `strip()` is idempotent. |
| Strings.StripPadded | app/utils/spec_coercion.py:7 | Whitespace around a non-empty trimmed core is exactly what `strip()` removes. |
| Strings.Split | app/utils/spec_coercion.py:8 | `split` yields at least one piece, and no piece holds the separator. |
| Strings.Join | app/utils/spec_coercion.py:20 | `sep.join(parts)` of no parts is empty, and of one part is that part. A longer join begins with the first part. Its length is the parts' total length plus one separator between each pair of neighbours. |
| Strings.JoinAppend | app/utils/spec_coercion.py:20 | Joining two non-empty lists of parts gives their two joins with one separator between them. With the empty and one-part cases, this fixes every join's value. |
| Strings.JoinSplit | app/utils/spec_coercion.py:8 | Joining the split pieces with the separator gives the string back. |
| Strings.SplitJoin | app/utils/spec_coercion.py:20 | Splitting a join of separator-free pieces gives the pieces back. |
| Strings.ContainsIff | app/services/intent_service.py:17 | The recursive substring test agrees with the positional definition of an occurrence. |
| Strings.ContainsInfix | app/services/intent_service.py:17 | A substring of `s` is a substring of any text that has `s` inside it. |
| Strings.LowerAscii | app/services/intent_service.py:10 | `lower()` keeps the length and changes no character except ASCII capitals. Each capital becomes its lower-case letter, 32 code points higher. |
| Strings.LowerUpper | app/services/intent_service.py:10 | Lower-casing the upper-cased text equals lower-casing the text. |
| Strings.LowerAsciiAppend | app/services/intent_service.py:10 | Lower-casing distributes over concatenation. |
| JsonFix.RemoveFences | app/utils/json_fix.py:6 | The substitution only deletes. The result is never longer than the text and holds no character the text lacks. The lemmas below say what it deletes for text with no backticks, for a text that starts with a fence, and for text in front of the first fence. |
| JsonFix.RemoveFencesLeavesNoFence | app/utils/json_fix.py:6 | No three consecutive backticks survive fence removal. This holds even for backticks on both sides of a removed fence. |
| JsonFix.RemoveFencesFenceFree | app/utils/json_fix.py:6 | Fence-free text is left as it is by fence removal. |
| JsonFix.FenceFreeIff | app/utils/json_fix.py:6 | "No fence at any position" is the same as "no fence substring" in the sense of Python's `in`. |
| JsonFix.Clean | app/utils/json_fix.py:6 | The cleaned text holds no fence and has no outer whitespace. |
| JsonFix.CleanHasNoFence | app/utils/json_fix.py:6 | The cleaned text contains no fence, in the sense of Python's `in`. |
| JsonFix.CleanNoBacktick | app/utils/json_fix.py:6 | Text without a backtick is only trimmed. |
| JsonFix.CleanTwice | app/utils/json_fix.py:6-11 | Cleaning cleaned text again, with any tag, changes nothing. So the fallback cleaning returns its input unchanged. |
| JsonFix.SafeJsonLoads | app/utils/json_fix.py:4-12 | Parsing succeeds exactly when one parse of the cleaned text succeeds, and it returns that value. On failure the decode error propagates, carrying the cleaned text. No default value is ever returned. |
| JsonFix.RemoveFencesPlainPrefix | app/utils/json_fix.py:6 | Text in which no fence starts is copied as it is, including any single or double backticks in it. |
| JsonFix.NoBacktickNoFenceStart | app/utils/json_fix.py:6 | No fence starts inside text without a backtick. |
| JsonFix.StrayBackticks | app/utils/json_fix.py:6 | In `` `a``` ``, the lone backtick stays and the fence after it is removed. |
| JsonFix.RemoveOpeningFence | app/utils/json_fix.py:6 | A fence followed by `json` in any letter case is removed together with the tag. |
| JsonFix.RemoveClosingFence | app/utils/json_fix.py:6 | A fence not followed by the tag is removed on its own. |
| JsonFix.RemoveFencedBlock | app/utils/json_fix.py:6 | A block between a `json`-tagged fence and a closing fence loses both fences and nothing else. |
| JsonFix.CleanFencedBlock | app/utils/json_fix.py:5-6 | A fenced `json` block holding `{"a":1}` cleans to `{"a":1}`. |
| JsonFix.CleanKeepsProse | app/utils/json_fix.py:6 | Prose around a fenced block is kept: only the fences go and the whole text is trimmed. |
| Validator.PyIn | app/utils/validator.py:22 | Python's `in` means a key of a `dict`, an element of a `list`, or a substring of a `str`. On any other value it raises. |
| Validator.ValidateScaffold | app/utils/validator.py:11-25 | It returns `True` exactly when `system_design` and `component_tree` are present and `"folders"` is in the tree. The checks run in order. Missing `system_design` gives "Missing system_design". Missing `component_tree` gives "Missing component_tree". A tree without `"folders"` gives "component_tree must contain folders". A tree that `in` cannot search raises a not-iterable `TypeError` that names its type. |
| Validator.ValidateObjectTree | app/utils/validator.py:16-25 | For a `dict` tree, the result is accepted exactly when the three keys are present. |
| Validator.ValidateIgnoresValues | app/utils/validator.py:16-25 | Only presence is checked. Replacing the values of present keys never changes the verdict. |
| Validator.ValidateAcceptsEmptyValues | app/utils/validator.py:16-25 | An empty `system_design` string and an empty `folders` list are accepted. |
| Validator.ValidateReportsFirstMissing | app/utils/validator.py:16-20 | When both keys are missing, `system_design` is the one reported. |
| Validator.ValidateFloatTree | app/utils/validator.py:22 | A `float` component tree makes `in` raise "argument of type 'float' is not iterable". |
| Validator.ValidateStringTree | app/utils/validator.py:22-25 | A string tree is searched as text, so `"folders"` anywhere in it passes. |
| Intents.AnyKeyword | app/services/intent_service.py:17 | `any(k in msg ...)` holds exactly when some keyword occurs in the message. |
| Intents.Detect | app/services/intent_service.py:9-20 | The result is `GENERATE_ARCHITECTURE` exactly when one of the nine keywords occurs in the lower-cased message. It is `CHAT` exactly when none does. |
| Intents.DetectIgnoresCase | app/services/intent_service.py:10 | Upper-casing the message does not change its intent. |
| Intents.DetectEmpty | app/services/intent_service.py:17-20 | The empty message is chat. |
| Intents.DetectMonotone | app/services/intent_service.py:17 | Text around a generation request cannot turn it into chat. |
| Intents.DetectSubstringNotWord | app/services/intent_service.py:12-17 | Matching is by substring, not by word: "happy" holds "app" and is a generation request. |

## Left out

- The language-model providers, the orchestrator, chat and generation
  services, retry constants, authentication, the database, configuration,
  zip building, prompt files and the HTTP routes are not part of this model.
  The core reaches the model only through `expand_prompt_to_spec`, and that
  is the `llm` function parameter.
- `json.loads` and the JSON grammar are not modelled. The parser is the
  `parse` function parameter. A JSON `float` is kept as an exact real.
  Binary floating point is not modelled, because no modelled code computes
  with numbers.
- `async`/`await` in `normalize` is not modelled. Awaiting the model's
  answer is one call of `llm`.
- Normalizer.InputNormalizer.Normalize: the spec object that the model
  returns is updated in place by `spec.inferred = True`. In the model the
  spec is a value, so aliasing of that object by the caller of the model is
  not captured.
- Normalizer.Normalized: a model call that raises is one error,
  `ExpansionFailed`, not the model's own exception.
- The request object that `normalize` receives is duck-typed in the source.
  `Payload` models it with every field optional.
- Case folding is ASCII only, for both `str.lower()` and `re.IGNORECASE`.
  Unicode folding is not modelled, for example that `re.IGNORECASE` also
  matches the tag `json` against `ſ`, or that `lower()` maps the Kelvin sign
  to `k`.
- Validator.ValidateScaffold: a `component_tree` that is a number, boolean
  or `None` makes `in` raise a `TypeError`. The model reports it with the
  Python type name. A dictionary key that is not a string is not
  representable, because decoded JSON keys are strings.
- SpecCoercion.JoinValues: the `TypeError` that `" ".join` raises is
  modelled by the index of the first non-`str` item, not by Python's
  message text.
