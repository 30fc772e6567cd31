/**
 The clause compiler of agents/mapping_agent.py. A raw clause arrives lexed: its parameter name
 normalised, its words stripped and folded to lower case, its numbers and list items extracted.
 */
module MappingAgent {
  import opened Options
  import opened Conditions

  datatype RawClause = RawClause(
    param: string,
    op: string,
    nums: seq<real>,
    word: string,
    items: seq<string>,
    hint: string,
    unit: Option<string>,
    kind: string,
    reference: string,
    confidence: real,
    rawText: string
  )

  datatype ValueType = Range | Enum | Boolean

  /** An operator word after normalisation; words outside the vocabulary compare equal to nothing. */
  datatype NormOp = Canon(op: Operator) | Between | Unlisted

  type Vocabulary = map<string, ValueType>

  /** Operators and their synonyms, value-type words, and the controlled vocabulary of parameters. */
  datatype Tables = Tables(
    ops: map<string, NormOp>,
    synonyms: map<string, NormOp>,
    types: map<string, ValueType>,
    vocab: Vocabulary
  )

  /** The canonical operators, which stand for themselves. */
  const SYMBOLS: map<string, NormOp> := map[
    "contains" := Canon(Contains), "not_in" := Canon(NotIn), "in" := Canon(In),
    ">=" := Canon(Ge), "<=" := Canon(Le), "==" := Canon(Eq), ">" := Canon(Gt), "<" := Canon(Lt)
  ]

  const SYNONYMS: map<string, NormOp> := map[
    "range" := Between, "within" := Between, "from-to" := Between,
    "greater than" := Canon(Gt), "above" := Canon(Gt), "over" := Canon(Gt), "gt" := Canon(Gt),
    "≥" := Canon(Ge), "min" := Canon(Ge), "minimum" := Canon(Ge), "gte" := Canon(Ge), "=>" := Canon(Ge),
    "below" := Canon(Lt), "under" := Canon(Lt), "lt" := Canon(Lt),
    "≤" := Canon(Le), "max" := Canon(Le), "maximum" := Canon(Le), "lte" := Canon(Le), "=<" := Canon(Le),
    "equal" := Canon(Eq), "equals" := Canon(Eq), "is" := Canon(Eq), "=" := Canon(Eq), "eq" := Canon(Eq),
    "any of" := Canon(In), "includes" := Canon(In), "member of" := Canon(In),
    "between" := Between, "more than" := Canon(Gt), "at least" := Canon(Ge), "less than" := Canon(Lt),
    "at most" := Canon(Le), "equal to" := Canon(Eq), "one of" := Canon(In),
    "none of" := Canon(NotIn), "excludes" := Canon(NotIn), "not one of" := Canon(NotIn)
  ]

  const VALUE_TYPES: Vocabulary := map[
    "number" := Range, "float" := Range, "int" := Range, "integer" := Range, "decimal" := Range,
    "measurement" := Range,
    "category" := Enum, "list" := Enum, "set" := Enum, "choice" := Enum, "str" := Enum, "text" := Enum,
    "flag" := Boolean,
    "range" := Range, "numeric" := Range, "enum" := Enum, "categorical" := Enum, "string" := Enum,
    "boolean" := Boolean, "bool" := Boolean
  ]

  const YES: set<string> := {"true", "yes", "1", "present", "required"}
  const NO: set<string> := {"false", "no", "0", "absent", "not required"}

  /** The words the agent knows, with a vocabulary read from the database. */
  function StandardTables(vocab: Vocabulary): Tables {
    Tables(SYMBOLS, SYNONYMS, VALUE_TYPES, vocab)
  }

  function NormOperator(word: string, t: Tables): NormOp {
    if word in t.ops then t.ops[word] else if word in t.synonyms then t.synonyms[word] else Unlisted
  }

  /** Vocabulary first, then the hint, then the value's own content. */
  function TypeOf(raw: RawClause, t: Tables): ValueType {
    if raw.param in t.vocab then t.vocab[raw.param]
    else if raw.hint in t.types then t.types[raw.hint]
    else if raw.nums != [] then Range
    else Enum
  }

  function ParseBool(word: string): Option<bool> {
    if word in YES then Some(true) else if word in NO then Some(false) else None
  }

  predicate Mentions(s: string, part: string) {
    exists i | 0 <= i <= |s| :: part <= s[i..]
  }

  function Least(nums: seq<real>): (m: real)
    requires nums != []
    ensures m in nums && forall x | x in nums :: m <= x
  {
    if |nums| == 1 then nums[0]
    else
      var m := Least(nums[..|nums| - 1]);
      var x := nums[|nums| - 1];
      assert nums == nums[..|nums| - 1] + [x];
      if x < m then x else m
  }

  function Greatest(nums: seq<real>): (m: real)
    requires nums != []
    ensures m in nums && forall x | x in nums :: x <= m
  {
    if |nums| == 1 then nums[0]
    else
      var m := Greatest(nums[..|nums| - 1]);
      var x := nums[|nums| - 1];
      assert nums == nums[..|nums| - 1] + [x];
      if x > m then x else m
  }

  function Unstructured(raw: RawClause): Condition {
    Condition(if raw.param == "" then None else Some(raw.param), None, None, None, None, None, raw.unit,
              if Mentions(raw.kind, "excl") then Exclusion else Inclusion,
              false, raw.rawText, raw.reference, Some(raw.confidence))
  }

  function StructureRange(base: Condition, op: NormOp, nums: seq<real>): Condition {
    if nums == [] then base
    else if |nums| >= 2 || op == Between then
      base.(structured := true, vmin := Some(Least(nums)), vmax := Some(Greatest(nums)))
    else if op == Canon(Gt) || op == Canon(Ge) then
      base.(structured := true, vmin := Some(nums[0]), op := Some(op.op))
    else if op == Canon(Lt) || op == Canon(Le) then
      base.(structured := true, vmax := Some(nums[0]), op := Some(op.op))
    else if op == Canon(Eq) then
      base.(structured := true, vmin := Some(nums[0]), vmax := Some(nums[0]), op := Some(Eq))
    else base
  }

  /** The unstructured form is built first and rejects an empty original sentence, whatever the clause. */
  function Structure(raw: RawClause, t: Tables): Result<Condition> {
    if raw.rawText == "" then Err
    else
      var base := Unstructured(raw);
      match TypeOf(raw, t)
      case Boolean =>
        var b := ParseBool(raw.word);
        Ok(if b.Some? then base.(op := Some(Eq), vbool := b, structured := true) else base)
      case Enum =>
        Ok(if raw.items != [] then
             base.(op := Some(if NormOperator(raw.op, t) == Canon(NotIn) then NotIn else In),
                   venum := Some(raw.items), structured := true)
           else base)
      case Range => Ok(StructureRange(base, NormOperator(raw.op, t), raw.nums))
  }

  // ---- what a clause says ----------------------------------------------

  /** The clause can be given machine form. */
  predicate Structurable(raw: RawClause, t: Tables) {
    match TypeOf(raw, t)
    case Boolean => raw.word in YES + NO
    case Enum => raw.items != []
    case Range =>
      || |raw.nums| >= 2
      || (|raw.nums| == 1
          && NormOperator(raw.op, t) in {Between, Canon(Gt), Canon(Ge), Canon(Lt), Canon(Le), Canon(Eq)})
  }

  /** x lies between two of the numbers, ends included. */
  predicate Spanned(nums: seq<real>, x: real) {
    (exists i | 0 <= i < |nums| :: nums[i] <= x) && (exists j | 0 <= j < |nums| :: x <= nums[j])
  }

  /** An operator that says how a value relates to a word or to a list of words; no operator at all reads as "is". */
  predicate ReadsWords(word: string, op: NormOp) {
    op in {Canon(Eq), Canon(In), Canon(NotIn)} || (op == Unlisted && word == "")
  }

  /** The clause has one plain meaning: its operator is one that can be said of what it lists. */
  predicate Plain(raw: RawClause, t: Tables) {
    && Structurable(raw, t)
    && match TypeOf(raw, t)
       case Boolean => ReadsWords(raw.op, NormOperator(raw.op, t))
       case Enum => ReadsWords(raw.op, NormOperator(raw.op, t))
       case Range => |raw.nums| >= 2 ==> NormOperator(raw.op, t) in {Canon(In), Canon(NotIn), Between}
  }

  /** What a numeric clause says of a number. */
  predicate NumbersSay(op: NormOp, nums: seq<real>, x: real)
    requires nums != []
  {
    match op
    case Between => Spanned(nums, x)
    case Canon(In) => Spanned(nums, x)
    case Canon(NotIn) => !Spanned(nums, x)
    case Canon(Gt) => x > nums[0]
    case Canon(Ge) => x >= nums[0]
    case Canon(Lt) => x < nums[0]
    case Canon(Le) => x <= nums[0]
    case _ => x == nums[0]
  }

  /** What a clause says of a word: it is one of those listed, or none of them. */
  predicate WordsSay(op: NormOp, items: seq<string>, text: string) {
    if op == Canon(NotIn) then forall i | 0 <= i < |items| :: items[i] != text
    else exists i | 0 <= i < |items| :: items[i] == text
  }

  /** What a clause says of a feature: that the product has it, or has it not. */
  predicate FeatureSays(op: NormOp, required: bool, present: bool) {
    if op == Canon(NotIn) then present != required else present == required
  }

  /** What the clause says of a value, read off the raw clause. */
  predicate Says(raw: RawClause, t: Tables, u: Value)
    requires Plain(raw, t)
    requires TypeOf(raw, t) == Range ==> u.number.Some?
  {
    var op := NormOperator(raw.op, t);
    match TypeOf(raw, t)
    case Boolean => FeatureSays(op, raw.word in YES, u.truthy)
    case Enum => WordsSay(op, raw.items, u.text)
    case Range => NumbersSay(op, raw.nums, u.number.value)
  }

  /** Structuring raises only on an empty sentence, gives machine form exactly when it can, and keeps the sentence. */
  lemma StructureKeeps(raw: RawClause, t: Tables)
    ensures Structure(raw, t).Err? <==> raw.rawText == ""
    ensures raw.rawText != "" ==>
              var c := Structure(raw, t).value;
              && (c.structured <==> Structurable(raw, t))
              && c.rawText == raw.rawText && c.reference == raw.reference
              && c.confidence == Some(raw.confidence) && c.unit == raw.unit
              && c.param == (if raw.param == "" then None else Some(raw.param))
              && (c.kind == Exclusion <==> exists i | 0 <= i <= |raw.kind| :: "excl" <= raw.kind[i..])
  {
  }

  /** The type a clause is read by: the vocabulary's, else the hint's, else what its value looks like. */
  predicate ReadAs(raw: RawClause, t: Tables, ty: ValueType) {
    || (raw.param in t.vocab && t.vocab[raw.param] == ty)
    || (raw.param !in t.vocab && raw.hint in t.types && t.types[raw.hint] == ty)
    || (raw.param !in t.vocab && raw.hint !in t.types && (ty == Range <==> raw.nums != []) && ty != Boolean)
  }

  /** The type decides alone which of the four forms a clause takes, whatever else its value contains. */
  lemma FormFollowsType(raw: RawClause, t: Tables, ty: ValueType)
    requires raw.rawText != "" && ReadAs(raw, t, ty)
    ensures var c := Structure(raw, t).value;
            && (ty == Enum ==>
                  && c.venum == (if raw.items != [] then Some(raw.items) else None)
                  && (c.structured <==> raw.items != [])
                  && c.vbool == None && c.vmin == None && c.vmax == None)
            && (ty == Boolean ==>
                  && c.vbool == (if raw.word in YES then Some(true) else if raw.word in NO then Some(false) else None)
                  && (c.structured <==> raw.word in YES || raw.word in NO)
                  && c.venum == None && c.vmin == None && c.vmax == None)
            && (ty == Range ==>
                  && c.venum == None && c.vbool == None
                  && (c.structured <==> c.vmin.Some? || c.vmax.Some?)
                  && (raw.nums == [] ==> !c.structured))
  {
  }

  /** A hinted list of classes stays a list although its items contain numbers. */
  lemma HintedListStaysList(raw: RawClause)
    requires raw.rawText != "" && raw.hint == "enum" && raw.items == ["class 1", "class 2"] && raw.nums == [1.0, 2.0]
    ensures Structure(raw, StandardTables(map[])).value.venum == Some(["class 1", "class 2"])
  {
    StandardTypes(map[]);
    FormFollowsType(raw, StandardTables(map[]), Enum);
  }

  /** The canonical operators stand for themselves. */
  lemma StandardSymbols(vocab: Vocabulary)
    ensures var t := StandardTables(vocab);
            && NormOperator(">", t) == Canon(Gt) && NormOperator(">=", t) == Canon(Ge)
            && NormOperator("<", t) == Canon(Lt) && NormOperator("<=", t) == Canon(Le)
            && NormOperator("==", t) == Canon(Eq) && NormOperator("in", t) == Canon(In)
            && NormOperator("not_in", t) == Canon(NotIn) && NormOperator("contains", t) == Canon(Contains)
  {
    assert ">"[0] == '>' && "<"[0] == '<';
    assert ">="[0] == '>' && "<="[0] == '<' && "=="[0] == '=' && "in"[0] == 'i';
  }

  /** The plainest words for each of them. */
  lemma StandardBounds(vocab: Vocabulary)
    ensures var t := StandardTables(vocab);
            && NormOperator("more than", t) == Canon(Gt) && NormOperator("at least", t) == Canon(Ge)
            && NormOperator("less than", t) == Canon(Lt) && NormOperator("at most", t) == Canon(Le)
  {
  }

  lemma StandardLists(vocab: Vocabulary)
    ensures var t := StandardTables(vocab);
            && NormOperator("between", t) == Between && NormOperator("one of", t) == Canon(In)
            && NormOperator("equal to", t) == Canon(Eq)
  {
  }

  lemma StandardNotIn(vocab: Vocabulary)
    ensures var t := StandardTables(vocab);
            && NormOperator("none of", t) == Canon(NotIn) && NormOperator("excludes", t) == Canon(NotIn)
            && NormOperator("not one of", t) == Canon(NotIn)
  {
  }

  /** The plainest hints for each type. */
  lemma StandardTypes(vocab: Vocabulary)
    ensures var types := StandardTables(vocab).types;
            && "range" in types && types["range"] == Range && "numeric" in types && types["numeric"] == Range
            && "enum" in types && types["enum"] == Enum && "string" in types && types["string"] == Enum
            && "boolean" in types && types["boolean"] == Boolean && "bool" in types && types["bool"] == Boolean
  {
  }

  /** The words the agent knows for yes and for no. */
  lemma StandardAnswers(w: string)
    ensures ParseBool(w) == if w in {"true", "yes", "1", "present", "required"} then Some(true)
                            else if w in {"false", "no", "0", "absent", "not required"} then Some(false) else None
  {
  }
}
