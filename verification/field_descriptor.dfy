/** The builder of a document field descriptor: the setters, the build-once
    rule (guarded setters fail once the descriptor is built, and the built
    descriptor is kept), and the decision chains that compute a field's
    effective readonly and mandatory logic, whether it may be public, and
    whether it supports zooming into the referenced record. */
module FieldDescriptors {
  import opened Wrappers
  import opened Logic
  import opened FieldValues

  datatype Characteristic =
    | PublicField
    | AdvancedField
    | SideListField
    | GridViewField
    | AllowFiltering
    | SpecialFieldDocumentNo
    | SpecialFieldDocStatus
    | SpecialFieldDocAction

  /** The widget type's attributes the builder reads. */
  datatype WidgetType = WidgetType(name: string, supportsZoomInto: bool, valueClass: JClass)

  /** The data binding's attribute the builder reads. */
  datatype DataBinding = DataBinding(mandatory: bool)

  /** Field names of the record's audit columns. */
  const CREATED_UPDATED_FIELD_NAMES: set<string> := {"Created", "CreatedBy", "Updated", "UpdatedBy"}
  const ATTRIBUTE_SET_INSTANCE_FIELD_NAME: string := "M_AttributeSetInstance_ID"
  const REF_LIST_TABLE_NAME: string := "AD_Ref_List"

  datatype FieldDescriptor = FieldDescriptor(
    fieldName: string,
    detailId: Option<string>,
    key: bool,
    parentLink: bool,
    calculated: bool,
    widgetType: WidgetType,
    valueClass: JClass,
    supportZoomInto: bool,
    virtualField: bool,
    characteristics: set<Characteristic>,
    readonlyLogic: LogicExpr,
    alwaysUpdateable: bool,
    displayLogic: LogicExpr,
    mandatoryLogic: LogicExpr,
    dataBinding: Option<DataBinding>,
    allowShowPassword: bool,
    buttonAction: Option<string>,
    callouts: seq<string>)

  datatype Builder = Builder(
    fieldName: string,
    detailId: Option<string>,
    key: bool,
    parentLink: bool,
    virtualField: bool,
    calculated: bool,
    widgetType: Option<WidgetType>,
    valueClass: Option<JClass>,
    allowShowPassword: bool,
    lookupTableName: Option<string>,
    defaultValueExpression: Option<string>,
    characteristics: set<Characteristic>,
    entityReadonlyLogic: LogicExpr,
    readonlyLogic: LogicExpr,
    alwaysUpdateable: bool,
    displayLogic: LogicExpr,
    mandatoryLogic: LogicExpr,
    dataBinding: Option<DataBinding>,
    callouts: seq<string>,
    buttonAction: Option<string>,
    built: Option<FieldDescriptor>)

  datatype BuilderError =
    | EmptyFieldName     // the constructor's assertion
    | AlreadyBuilt       // IllegalStateException of assertNotBuilt
    | WidgetTypeNull     // NullPointerException of getWidgetType

  /** `DocumentFieldDescriptor.builder(fieldName)` with its defaults. */
  function NewBuilder(fieldName: string): (r: Result<Builder, BuilderError>)
    ensures fieldName == "" <==> r.Err?
    ensures r.Ok? ==> r.value.fieldName == fieldName && r.value.built.None?
    ensures r.Ok? ==> !r.value.key && !r.value.parentLink && r.value.characteristics == {}
    ensures r.Ok? ==> r.value.entityReadonlyLogic == FALSE && r.value.readonlyLogic == FALSE
    ensures r.Ok? ==> r.value.displayLogic == TRUE && r.value.mandatoryLogic == FALSE
  {
    if fieldName == "" then Err(EmptyFieldName)
    else Ok(Builder(fieldName, None, false, false, false, false, None, None, false, None, None, {},
                    FALSE, FALSE, false, TRUE, FALSE, None, [], None, None))
  }

  // ---------------------------------------------------------------------------
  // Setters

  datatype Setting =
    // guarded by assertNotBuilt
    | SetDetailId(detailId: Option<string>)
    | SetKey(key: bool)
    | SetParentLink(parentLink: bool)
    | SetVirtualField(virtualField: bool)
    | SetCalculated(calculated: bool)
    | SetWidgetType(widgetType: Option<WidgetType>)
    | SetValueClass(valueClass: Option<JClass>)
    | SetDefaultValueExpression(expression: Option<string>)
    | AddCharacteristic(c: Characteristic)
    | RemoveCharacteristic(c: Characteristic)
    | SetReadonlyLogic(logic: LogicExpr)
    | SetAlwaysUpdateable(alwaysUpdateable: bool)
    | SetDisplayLogic(logic: LogicExpr)
    | SetMandatoryLogic(logic: LogicExpr)
    | SetDataBinding(dataBinding: Option<DataBinding>)
    // not guarded
    | SetAllowShowPassword(allow: bool)
    | SetLookupTableName(tableName: Option<string>)
    | SetEntityReadonlyLogic(logic: LogicExpr)
    | SetButtonAction(action: Option<string>)
    | AddCallout(callout: string)

  predicate IsGuarded(s: Setting) {
    !(s.SetAllowShowPassword? || s.SetLookupTableName? || s.SetEntityReadonlyLogic? || s.SetButtonAction? || s.AddCallout?)
  }

  function Update(b: Builder, s: Setting): (r: Builder)
    ensures r.built == b.built && r.fieldName == b.fieldName
    ensures s.AddCallout? ==> s.callout in r.callouts && |r.callouts| <= |b.callouts| + 1
  {
    match s
    case SetDetailId(d) => b.(detailId := d)
    case SetKey(k) => b.(key := k)
    case SetParentLink(p) => b.(parentLink := p)
    case SetVirtualField(v) => b.(virtualField := v)
    case SetCalculated(c) => b.(calculated := c)
    case SetWidgetType(w) => b.(widgetType := w)
    case SetValueClass(v) => b.(valueClass := v)
    case SetDefaultValueExpression(e) => b.(defaultValueExpression := e)
    case AddCharacteristic(c) => b.(characteristics := b.characteristics + {c})
    case RemoveCharacteristic(c) => b.(characteristics := b.characteristics - {c})
    case SetReadonlyLogic(l) => b.(readonlyLogic := l)
    case SetAlwaysUpdateable(a) => b.(alwaysUpdateable := a)
    case SetDisplayLogic(l) => b.(displayLogic := l)
    case SetMandatoryLogic(l) => b.(mandatoryLogic := l)
    case SetDataBinding(d) => b.(dataBinding := d)
    case SetAllowShowPassword(a) => b.(allowShowPassword := a)
    case SetLookupTableName(t) => b.(lookupTableName := t)
    case SetEntityReadonlyLogic(l) => b.(entityReadonlyLogic := l)
    case SetButtonAction(a) => b.(buttonAction := a)
    case AddCallout(c) => if c in b.callouts then b else b.(callouts := b.callouts + [c])
  }

  /** A setter call: the guarded setters fail once the descriptor is built. */
  function Apply(b: Builder, s: Setting): (r: Result<Builder, BuilderError>)
    ensures r.Err? <==> IsGuarded(s) && b.built.Some?
    ensures r.Err? ==> r.error == AlreadyBuilt
    ensures r.Ok? ==> r.value.built == b.built && r.value.fieldName == b.fieldName
    ensures r.Ok? && s.AddCallout? ==> s.callout in r.value.callouts && |r.value.callouts| <= |b.callouts| + 1
  {
    if IsGuarded(s) && b.built.Some? then Err(AlreadyBuilt) else Ok(Update(b, s))
  }

  /** Setter calls one after another, stopping at the first failure. */
  function ApplyAll(b: Builder, ss: seq<Setting>): Result<Builder, BuilderError>
    decreases |ss|
  {
    if |ss| == 0 then Ok(b)
    else
      match Apply(b, ss[0])
      case Err(e) => Err(e)
      case Ok(b1) => ApplyAll(b1, ss[1..])
  }

  // ---------------------------------------------------------------------------
  // Derived attributes

  /** A field of an included (detail) tab. */
  predicate IsDetail(b: Builder) {
    b.detailId.Some?
  }

  /** `isParentLinkEffective()`: a parent link counts only inside a detail tab. */
  predicate IsParentLinkEffective(b: Builder) {
    b.parentLink && IsDetail(b)
  }

  predicate IsCalculated(b: Builder) {
    b.virtualField || b.calculated
  }

  /** `getValueClass()`: the explicit value class, else the widget type's. */
  function GetValueClass(b: Builder): (r: Result<JClass, BuilderError>)
    ensures b.valueClass.Some? ==> r == Ok(b.valueClass.value)
    ensures b.valueClass.None? && b.widgetType.None? ==> r == Err(WidgetTypeNull)
    ensures b.valueClass.None? && b.widgetType.Some? ==> r == Ok(b.widgetType.value.valueClass)
  {
    if b.valueClass.Some? then Ok(b.valueClass.value)
    else if b.widgetType.None? then Err(WidgetTypeNull)
    else Ok(b.widgetType.value.valueClass)
  }

  /** The rules that make a field readonly whatever else holds. */
  predicate AlwaysReadonly(b: Builder) {
    IsParentLinkEffective(b) || b.virtualField || b.key || IsConstantTrue(b.entityReadonlyLogic)
  }

  /** The special fields that are editable whatever else holds. */
  predicate SpecialEditable(b: Builder) {
    SpecialFieldDocumentNo in b.characteristics || SpecialFieldDocAction in b.characteristics
  }

  /** The rules, checked after the above, that make a field readonly. */
  predicate ReadonlyByField(b: Builder) {
    IsConstantTrue(b.readonlyLogic) || b.fieldName in CREATED_UPDATED_FIELD_NAMES ||
    SpecialFieldDocStatus in b.characteristics
  }

  /** `buildReadonlyLogicEffective()`. */
  function BuildReadonlyLogicEffective(b: Builder): (r: LogicExpr)
    ensures AlwaysReadonly(b) ==> r == TRUE
    ensures !AlwaysReadonly(b) && SpecialEditable(b) ==> r == FALSE
    ensures !AlwaysReadonly(b) && !SpecialEditable(b) && ReadonlyByField(b) ==> r == TRUE
  {
    if IsParentLinkEffective(b) then TRUE
    else if b.virtualField then TRUE
    else if b.key then TRUE
    else if IsConstantTrue(b.entityReadonlyLogic) then TRUE
    else if SpecialFieldDocumentNo in b.characteristics then FALSE
    else if SpecialFieldDocAction in b.characteristics then FALSE
    else if IsConstantTrue(b.readonlyLogic) then TRUE
    else if b.fieldName in CREATED_UPDATED_FIELD_NAMES then TRUE
    else if SpecialFieldDocStatus in b.characteristics then TRUE
    else if !IsConstantFalse(b.entityReadonlyLogic) then Or(b.entityReadonlyLogic, b.readonlyLogic)
    else b.readonlyLogic
  }

  /** When no rule decides, the effective readonly logic holds exactly when the
      tab's or the field's own readonly logic holds: leaving out a constant
      false tab logic does not change the meaning. */
  lemma ReadonlyFallsBackToEntityOrField(b: Builder, compiled: string -> bool)
    requires !AlwaysReadonly(b) && !SpecialEditable(b) && !ReadonlyByField(b)
    ensures Holds(BuildReadonlyLogicEffective(b), compiled) <==>
              Holds(b.entityReadonlyLogic, compiled) || Holds(b.readonlyLogic, compiled)
  {
  }

  /** Apart from the DocumentNo and DocAction fields, a field is at least as
      readonly as its own logic and its tab's logic say. */
  lemma ReadonlyEffectiveIsAtLeastDeclared(b: Builder, compiled: string -> bool)
    requires !SpecialEditable(b) || AlwaysReadonly(b)
    ensures Holds(b.readonlyLogic, compiled) ==> Holds(BuildReadonlyLogicEffective(b), compiled)
    ensures Holds(b.entityReadonlyLogic, compiled) ==> Holds(BuildReadonlyLogicEffective(b), compiled)
  {
  }

  /** The rules that make a field optional whatever its mandatory logic says. */
  predicate NeverMandatory(b: Builder) {
    b.fieldName in CREATED_UPDATED_FIELD_NAMES || b.virtualField || b.fieldName == ATTRIBUTE_SET_INSTANCE_FIELD_NAME
  }

  /** A field declared always mandatory that is not public and not mandatory in
      the database: nobody could fill it in. */
  predicate HiddenOptional(b: Builder) {
    PublicField !in b.characteristics && IsConstantTrue(b.mandatoryLogic) &&
    !(b.dataBinding.Some? && b.dataBinding.value.mandatory)
  }

  /** `buildMandatoryLogicEffective()`. */
  function BuildMandatoryLogicEffective(b: Builder): (r: LogicExpr)
    ensures IsParentLinkEffective(b) ==> r == TRUE
    ensures !IsParentLinkEffective(b) && (NeverMandatory(b) || HiddenOptional(b)) ==> r == FALSE
    ensures (!IsParentLinkEffective(b) && !NeverMandatory(b) && !HiddenOptional(b) &&
             SpecialFieldDocumentNo in b.characteristics) ==> r == TRUE
  {
    if IsParentLinkEffective(b) then TRUE
    else if b.fieldName in CREATED_UPDATED_FIELD_NAMES then FALSE
    else if b.virtualField then FALSE
    else if b.fieldName == ATTRIBUTE_SET_INSTANCE_FIELD_NAME then FALSE
    else if HiddenOptional(b) then FALSE
    else if SpecialFieldDocumentNo in b.characteristics then TRUE
    else if IsConstantTrue(b.mandatoryLogic) then TRUE
    else b.mandatoryLogic
  }

  /** The effective mandatory logic adds a requirement only for effective parent
      links and DocumentNo fields, and drops one only for the never-mandatory
      and hidden-optional fields. */
  lemma MandatoryEffectiveAgainstDeclared(b: Builder, compiled: string -> bool)
    ensures Holds(BuildMandatoryLogicEffective(b), compiled) ==>
              Holds(b.mandatoryLogic, compiled) || IsParentLinkEffective(b) || SpecialFieldDocumentNo in b.characteristics
    ensures Holds(b.mandatoryLogic, compiled) && !NeverMandatory(b) && !HiddenOptional(b) ==>
              Holds(BuildMandatoryLogicEffective(b), compiled)
  {
  }

  /** `isPossiblePublicField()`. */
  function IsPossiblePublicField(b: Builder): (r: bool)
    ensures r <==> !(!b.key && b.displayLogic == FALSE)
  {
    if b.key then true
    else if !b.displayLogic.Const? then true
    else IsConstantTrue(b.displayLogic)
  }

  /** `isSupportZoomInto()`. */
  function IsSupportZoomInto(b: Builder): (r: Result<bool, BuilderError>)
    ensures b.key ==> r == Ok(true)
    ensures !b.key && b.widgetType.None? ==> r == Err(WidgetTypeNull)
    ensures r == Ok(true) <==>
              b.key || (b.widgetType.Some? && b.widgetType.value.supportsZoomInto &&
                        !IsAssignableFrom(JStringLookup, GetValueClass(b).value) &&
                        b.lookupTableName != Some(REF_LIST_TABLE_NAME))
  {
    if b.key then Ok(true)
    else if b.widgetType.None? then Err(WidgetTypeNull)
    else if !b.widgetType.value.supportsZoomInto then Ok(false)
    else if IsAssignableFrom(JStringLookup, GetValueClass(b).value) then Ok(false)
    else if b.lookupTableName == Some(REF_LIST_TABLE_NAME) then Ok(false)
    else Ok(true)
  }

  // ---------------------------------------------------------------------------
  // Building

  /** The descriptor's constructor; it needs a widget type. */
  function Build(b: Builder): (r: Result<FieldDescriptor, BuilderError>)
    ensures b.widgetType.None? <==> r.Err?
    ensures r.Ok? ==> r.value.readonlyLogic == BuildReadonlyLogicEffective(b)
    ensures r.Ok? ==> r.value.mandatoryLogic == BuildMandatoryLogicEffective(b)
    ensures r.Ok? ==> r.value.calculated == IsCalculated(b) && r.value.valueClass == GetValueClass(b).value
    ensures r.Ok? ==> r.value.supportZoomInto == IsSupportZoomInto(b).value
  {
    if b.widgetType.None? then Err(WidgetTypeNull)
    else Ok(FieldDescriptor(
      b.fieldName, b.detailId, b.key, b.parentLink, IsCalculated(b), b.widgetType.value,
      GetValueClass(b).value, IsSupportZoomInto(b).value, b.virtualField, b.characteristics,
      BuildReadonlyLogicEffective(b), b.alwaysUpdateable, b.displayLogic, BuildMandatoryLogicEffective(b),
      b.dataBinding, b.allowShowPassword, b.buttonAction, b.callouts))
  }

  /** `getOrBuild()`: the descriptor built the first time, and the builder that
      remembers it. */
  function GetOrBuild(b: Builder): (r: Result<(FieldDescriptor, Builder), BuilderError>)
    ensures b.built.Some? ==> r == Ok((b.built.value, b))
    ensures b.built.None? ==> (r.Ok? <==> Build(b).Ok?)
    ensures r.Ok? ==> r.value.1.built == Some(r.value.0)
  {
    if b.built.Some? then Ok((b.built.value, b))
    else
      match Build(b)
      case Err(e) => Err(e)
      case Ok(d) => Ok((d, b.(built := Some(d))))
  }

  /** Once built, the descriptor never changes: any later setter calls either
      fail or leave it in place, and `getOrBuild()` returns it again. */
  lemma {:induction false} BuiltDescriptorIsFrozen(b: Builder, ss: seq<Setting>)
    requires GetOrBuild(b).Ok?
    ensures ApplyAll(GetOrBuild(b).value.1, ss).Ok? ==>
              GetOrBuild(ApplyAll(GetOrBuild(b).value.1, ss).value) == Ok((GetOrBuild(b).value.0, ApplyAll(GetOrBuild(b).value.1, ss).value))
    ensures (exists i :: 0 <= i < |ss| && IsGuarded(ss[i])) ==> ApplyAll(GetOrBuild(b).value.1, ss) == Err(AlreadyBuilt)
    decreases |ss|
  {
    var b1 := GetOrBuild(b).value.1;
    var d := GetOrBuild(b).value.0;
    FrozenSteps(b1, d, ss);
  }

  lemma {:induction false} FrozenSteps(b: Builder, d: FieldDescriptor, ss: seq<Setting>)
    requires b.built == Some(d)
    ensures ApplyAll(b, ss).Ok? ==> ApplyAll(b, ss).value.built == Some(d)
    ensures (exists i :: 0 <= i < |ss| && IsGuarded(ss[i])) ==> ApplyAll(b, ss) == Err(AlreadyBuilt)
    decreases |ss|
  {
    if |ss| > 0 {
      if IsGuarded(ss[0]) {
        assert ApplyAll(b, ss) == Err(AlreadyBuilt);
      } else {
        var b1 := Apply(b, ss[0]).value;
        FrozenSteps(b1, d, ss[1..]);
        if exists i :: 0 <= i < |ss| && IsGuarded(ss[i]) {
          var i :| 0 <= i < |ss| && IsGuarded(ss[i]);
          assert i > 0 && ss[1..][i - 1] == ss[i];
        }
      }
    }
  }
}
