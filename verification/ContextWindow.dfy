/** Two checks of whether a prompt fits the served window, and how they relate. */
module ContextWindow {
  import opened Text

  type Positive = n: int | n >= 1 witness 1

  datatype Config = Config(maxTokens: Positive, maxModelLen: Option<Positive>, contextBudget: Option<Positive>)

  /** The planner's largest context for the host and the model's own; zero where unknown. */
  datatype ModelWindow = ModelWindow(plannerMax: nat, modelMax: nat)

  datatype Source = FromDeclared | FromServed | Unbounded

  function EstimateTokens(config: Config, chars: nat): int {
    chars / 3 + 512 + config.maxTokens
  }

  function Least(window: int, cap: Option<Positive>): int {
    if cap.None? then window else if window != 0 && window < cap.value then window else cap.value
  }

  /** The window the configuration claims; zero where nothing bounds it. */
  function DeclaredMax(config: Config, model: Option<ModelWindow>): int {
    var planned := if model.None? then 0 else if model.value.plannerMax != 0 then model.value.plannerMax else model.value.modelMax;
    Least(Least(planned, config.maxModelLen), config.contextBudget)
  }

  /** The smaller of the declared and the probed window, and which of them it is. */
  function BindWindow(declared: int, served: Option<int>): (int, Source) {
    if served.None? || served.value <= 0 then (declared, if declared > 0 then FromDeclared else Unbounded)
    else if declared <= 0 then (served.value, FromServed)
    else if served.value < declared then (served.value, FromServed)
    else (declared, FromDeclared)
  }

  function BoundMax(config: Config, model: Option<ModelWindow>, served: Option<int>): (int, Source) {
    BindWindow(DeclaredMax(config, model), served)
  }

  /** The check of a retrieved context, in estimated tokens. */
  predicate FitsContextChars(config: Config, model: Option<ModelWindow>, chars: nat, served: Option<int>) {
    var estimated := EstimateTokens(config, chars);
    var window := BoundMax(config, model, served).0;
    (config.contextBudget.Some? ==> estimated <= config.contextBudget.value) && (window <= 0 || estimated <= window)
  }

  /** The budget of an agent's step, in characters; zero is no bound. */
  function BudgetFromWindow(config: Config, window: int): nat {
    var usable := if window != 0 then window - 512 - config.maxTokens else 0;
    if usable * 3 < 0 then 0 else usable * 3
  }

  function ContextBudget(config: Config, model: Option<ModelWindow>, served: Option<int>): nat {
    var (window, source) := BoundMax(config, model, served);
    if source == Unbounded then 0 else BudgetFromWindow(config, window)
  }

  predicate FitsBudget(config: Config, model: Option<ModelWindow>, chars: nat, served: Option<int>) {
    var budget := ContextBudget(config, model, served);
    budget <= 0 || chars <= budget
  }

  /** The window leaves room for a prompt beyond the headroom and the completion. */
  predicate HasRoom(config: Config, window: int) {
    window > 512 + config.maxTokens
  }

  /** `window` is the least of the windows in `known` that are not zero; zero if there is none. */
  ghost predicate IsLeastKnown(window: int, known: seq<int>) {
    && window in known + [0]
    && (forall i | 0 <= i < |known| && known[i] != 0 :: 0 < window <= known[i])
  }

  function OrZero(cap: Option<Positive>): int {
    if cap.None? then 0 else cap.value
  }

  /** The declared window is the least that is known of what the planner allows or, failing that,
      the model has, the requested cap, and the explicit budget. */
  lemma DeclaredIsLeastKnown(config: Config, model: Option<ModelWindow>)
    ensures var planned := if model.None? then 0 else if model.value.plannerMax > 0 then model.value.plannerMax else model.value.modelMax;
            IsLeastKnown(DeclaredMax(config, model), [planned, OrZero(config.maxModelLen), OrZero(config.contextBudget)])
  {}

  /** The bound window is the least of those that are known, and unbounded when none is. */
  lemma BoundIsLeastKnown(declared: int, served: Option<int>)
    requires declared >= 0
    ensures var (window, source) := BindWindow(declared, served);
            && (source == Unbounded <==> declared == 0 && (served.None? || served.value <= 0))
            && (source == Unbounded <==> window == 0)
            && (declared > 0 ==> 0 < window <= declared)
            && (served.Some? && served.value > 0 ==> 0 < window <= served.value)
            && (source == FromDeclared ==> window == declared)
            && (source == FromServed ==> served == Some(window) && (declared == 0 || window < declared))
  {}

  /** An explicit budget is already part of the bound window, so its own test is implied. */
  lemma BudgetTestIsImplied(config: Config, model: Option<ModelWindow>, chars: nat, served: Option<int>)
    ensures FitsContextChars(config, model, chars, served)
       <==> var window := BoundMax(config, model, served).0;
            window == 0 || EstimateTokens(config, chars) <= window
  {
    BoundIsLeastKnown(DeclaredMax(config, model), served);
  }

  lemma ThirdsBound(chars: nat, u: int)
    ensures chars / 3 <= u <==> chars <= 3 * u + 2
  {}

  /** Given room, the budget admits 3u characters where the check admits 3u + 2: it admits no
      prompt that the check refuses, and they differ on just two sizes. */
  lemma BudgetRefinesCheck(config: Config, model: Option<ModelWindow>, chars: nat, served: Option<int>)
    requires HasRoom(config, BoundMax(config, model, served).0)
    ensures var u := BoundMax(config, model, served).0 - 512 - config.maxTokens;
            && (FitsBudget(config, model, chars, served) ==> FitsContextChars(config, model, chars, served))
            && (FitsContextChars(config, model, chars, served) && !FitsBudget(config, model, chars, served)
                <==> chars == 3 * u + 1 || chars == 3 * u + 2)
  {
    BudgetTestIsImplied(config, model, chars, served);
    BoundIsLeastKnown(DeclaredMax(config, model), served);
    ThirdsBound(chars, BoundMax(config, model, served).0 - 512 - config.maxTokens);
  }

  ghost predicate BudgetImpliesCheck(config: Config, model: Option<ModelWindow>, served: Option<int>) {
    forall chars: nat :: FitsBudget(config, model, chars, served) ==> FitsContextChars(config, model, chars, served)
  }

  /** The refinement holds for all prompts exactly when the window is unknown or leaves room: a
      window without room makes the budget zero, which admits every prompt. */
  lemma RefinesIffRoom(config: Config, model: Option<ModelWindow>, served: Option<int>)
    ensures BudgetImpliesCheck(config, model, served)
       <==> BoundMax(config, model, served).0 == 0 || HasRoom(config, BoundMax(config, model, served).0)
  {
    var window := BoundMax(config, model, served).0;
    BoundIsLeastKnown(DeclaredMax(config, model), served);
    if window == 0 || HasRoom(config, window) {
      forall chars: nat ensures FitsBudget(config, model, chars, served) ==> FitsContextChars(config, model, chars, served) {
        BudgetTestIsImplied(config, model, chars, served);
        if window != 0 { BudgetRefinesCheck(config, model, chars, served); }
      }
    } else {
      BudgetTestIsImplied(config, model, 3, served);
      assert FitsBudget(config, model, 3, served) && !FitsContextChars(config, model, 3, served);
    }
  }

  /** A probed window never admits a prompt that the declared window refuses. */
  lemma ProbeOnlyNarrowsCheck(config: Config, model: Option<ModelWindow>, chars: nat, served: Option<int>)
    requires FitsContextChars(config, model, chars, served)
    ensures FitsContextChars(config, model, chars, None)
  {
    BudgetTestIsImplied(config, model, chars, served);
    BudgetTestIsImplied(config, model, chars, None);
    BoundIsLeastKnown(DeclaredMax(config, model), served);
    BoundIsLeastKnown(DeclaredMax(config, model), None);
  }

  ghost predicate ProbeNarrowsBudget(config: Config, model: Option<ModelWindow>, served: Option<int>) {
    forall chars: nat :: FitsBudget(config, model, chars, served) ==> FitsBudget(config, model, chars, None)
  }

  /** For the budget that holds exactly when the declared window bounds nothing either, or the
      window bound with the probe still leaves room. */
  lemma ProbeNarrowsBudgetIff(config: Config, model: Option<ModelWindow>, served: Option<int>)
    ensures ProbeNarrowsBudget(config, model, served)
       <==> !HasRoom(config, DeclaredMax(config, model)) || HasRoom(config, BoundMax(config, model, served).0)
  {
    var (declared, window) := (DeclaredMax(config, model), BoundMax(config, model, served).0);
    BoundIsLeastKnown(declared, served);
    BoundIsLeastKnown(declared, None);
    if HasRoom(config, declared) && !HasRoom(config, window) {
      var chars := 3 * (declared - 512 - config.maxTokens) + 1;
      assert FitsBudget(config, model, chars, served) && !FitsBudget(config, model, chars, None);
    }
  }
}
