/**
  A filter parameter holding a boolean value with a default. Changing the
  value through `setValue` notifies the adjustment listener, when one is set
  and the caller asks for it. The listener and the Swing component become
  flags; their callbacks become counters.
 */
module BooleanParams {
  import opened Wrappers

  datatype RandomizePolicy = AllowRandomize | IgnoreRandomize

  class BooleanParam {
    const name: string
    const defaultValue: bool
    const randomizePolicy: RandomizePolicy
    /** Whether the GUI shows a reset-to-default button. */
    const addDefaultButton: bool
    var currentValue: bool
    /** Whether an adjustment listener is set. */
    var hasAdjustmentListener: bool
    /** Whether the Swing component has been created. */
    var hasParamGUI: bool
    /** How often the adjustment listener has been told that the parameter changed. */
    ghost var adjustments: nat
    /** How often the Swing component has been refreshed. */
    ghost var guiUpdates: nat

    /** The constructors: the shorter ones default to allowing randomisation and no default button. */
    constructor (name: string, defaultValue: bool, randomizePolicy: RandomizePolicy := AllowRandomize,
                 addDefaultButton: bool := false)
      ensures this.name == name && this.defaultValue == defaultValue
      ensures this.randomizePolicy == randomizePolicy && this.addDefaultButton == addDefaultButton
      ensures currentValue == defaultValue && IsSetToDefault() && IsChecked() == defaultValue
      ensures !hasAdjustmentListener && !hasParamGUI && adjustments == 0 && guiUpdates == 0
    {
      this.name := name;
      this.defaultValue := defaultValue;
      this.randomizePolicy := randomizePolicy;
      this.addDefaultButton := addDefaultButton;
      currentValue := defaultValue;
      hasAdjustmentListener := false;
      hasParamGUI := false;
      adjustments := 0;
      guiUpdates := 0;
    }

    /**
      `createGUI`: the Swing component now exists, so later `setValue` and
      `reset` calls with the views updated refresh it. The value and the
      listener are untouched.
     */
    method CreateGUI()
      modifies this`hasParamGUI
      ensures hasParamGUI
    {
      hasParamGUI := true;
    }

    /** `createParamForHPSharpening`: off by default and left alone by randomisation. */
    static method CreateParamForHPSharpening() returns (p: BooleanParam)
      ensures fresh(p)
      ensures p.name == "High-Pass Sharpening" && !p.defaultValue && p.randomizePolicy == IgnoreRandomize
      ensures !p.IsChecked() && p.IsSetToDefault()
    {
      p := new BooleanParam("High-Pass Sharpening", false, IgnoreRandomize);
    }

    /** `setAdjustmentListener`, inherited: from now on changes may be reported. */
    method SetAdjustmentListener()
      modifies this`hasAdjustmentListener
      ensures hasAdjustmentListener
    {
      hasAdjustmentListener := true;
    }

    /** `isSetToDefault`. */
    predicate IsSetToDefault()
      reads this
    {
      defaultValue == currentValue
    }

    /** `isChecked`. */
    function IsChecked(): bool
      reads this
    {
      currentValue
    }

    /**
      `setValue`: afterwards the parameter holds `newValue`. The listener is
      told exactly when the value changed, `trigger` is set and there is a
      listener; the component is refreshed whenever asked and present, even
      when nothing changed.
     */
    method SetValue(newValue: bool, updateGUI: bool, trigger: bool)
      modifies this`currentValue, this`adjustments, this`guiUpdates
      ensures currentValue == newValue && IsChecked() == newValue
      ensures adjustments == old(adjustments) + if old(currentValue) != newValue && trigger && hasAdjustmentListener then 1 else 0
      ensures guiUpdates == old(guiUpdates) + if updateGUI && hasParamGUI then 1 else 0
      ensures old(currentValue) == newValue ==> currentValue == old(currentValue) && adjustments == old(adjustments)
    {
      if currentValue != newValue {
        currentValue := newValue;
        if trigger && hasAdjustmentListener {
          adjustments := adjustments + 1;
        }
      }
      if updateGUI && hasParamGUI {
        guiUpdates := guiUpdates + 1;
      }
    }

    /**
      `reset`: sets the default value, refreshing the component. The
      parameter is then at its default; the listener is told only when the
      value was not already the default.
     */
    method Reset(triggerAction: bool)
      modifies this`currentValue, this`adjustments, this`guiUpdates
      ensures IsSetToDefault() && currentValue == defaultValue
      ensures adjustments == old(adjustments) + if !old(IsSetToDefault()) && triggerAction && hasAdjustmentListener then 1 else 0
      ensures guiUpdates == old(guiUpdates) + if hasParamGUI then 1 else 0
    {
      SetValue(defaultValue, true, triggerAction);
    }

    /** `canBeAnimated`: a boolean parameter takes no part in tweening. */
    function CanBeAnimated(): (r: bool)
      ensures !r
    {
      false
    }

    /** `copyState`: unsupported; it always throws. */
    function CopyState(): (r: Outcome)
      ensures r.Fail? && r.error == UnsupportedOperationException
    {
      Fail(UnsupportedOperationException)
    }

    /** `setState`: unsupported; it always throws, and the value stays. */
    function SetState(): (r: Outcome)
      ensures r.Fail? && r.error == UnsupportedOperationException
    {
      Fail(UnsupportedOperationException)
    }
  }
}
