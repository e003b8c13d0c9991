/** The decisions the descriptor factory takes when it turns a window tab of
    the application dictionary (a GridTabVO) and its fields (GridFieldVO) into
    entity and field descriptors: the tab's readonly and allow-create/delete
    logic, the child-to-parent link columns, and per field the readonly logic,
    the button action, the sort number and the always-updateable flag. The
    dictionary records are reduced to the attributes these decisions read. */
module GridTabFactory {
  import opened Wrappers
  import opened JavaLang
  import opened Logic
  import opened FieldValues

  const DOC_ACTION_FIELD_NAME: string := "DocAction"
  const PROCESSING_FIELD_NAME: string := "Processing"

  datatype TabInfo = TabInfo(
    isView: bool,
    isReadOnly: bool,
    readOnlyLogic: LogicExpr,
    insertRecord: bool,
    deleteable: bool,
    parentColumnId: int,
    columnNamesById: map<int, string>,   // getColumnNameByAD_Column_ID
    keyColumnName: Option<string>,
    linkColumnNames: set<string>)

  // ---------------------------------------------------------------------------
  // Tab-level logic

  /** `extractTabReadonlyLogic(gridTabVO)`. */
  function ExtractTabReadonlyLogic(tab: TabInfo): (r: LogicExpr)
    ensures tab.isView || tab.isReadOnly ==> r == TRUE
    ensures !tab.isView && !tab.isReadOnly ==> r == tab.readOnlyLogic
  {
    if tab.isView then TRUE
    else if tab.isReadOnly then TRUE
    else if IsConstantTrue(tab.readOnlyLogic) then TRUE
    else tab.readOnlyLogic
  }

  /** `allowInsert.andNot(readonlyLogic)`. */
  function AllowCreateNewLogic(tab: TabInfo): LogicExpr {
    AndNot(Const(tab.insertRecord), ExtractTabReadonlyLogic(tab))
  }

  /** `allowDelete.andNot(readonlyLogic)`. */
  function AllowDeleteLogic(tab: TabInfo): LogicExpr {
    AndNot(Const(tab.deleteable), ExtractTabReadonlyLogic(tab))
  }

  /** A tab is readonly when it is a view, flagged readonly, or its own logic
      says so; creating (deleting) is allowed exactly when the tab allows
      inserting (deleting) and is not readonly. */
  lemma TabLogicMeaning(tab: TabInfo, compiled: string -> bool)
    ensures Holds(ExtractTabReadonlyLogic(tab), compiled) <==>
              tab.isView || tab.isReadOnly || Holds(tab.readOnlyLogic, compiled)
    ensures Holds(AllowCreateNewLogic(tab), compiled) <==>
              tab.insertRecord && !Holds(ExtractTabReadonlyLogic(tab), compiled)
    ensures Holds(AllowDeleteLogic(tab), compiled) <==>
              tab.deleteable && !Holds(ExtractTabReadonlyLogic(tab), compiled)
  {
  }

  // ---------------------------------------------------------------------------
  // Link columns

  /** The parent's link column: the parent tab's column named by the child's
      Parent_Column_ID, else the parent's key column. */
  function ParentLinkColumnName(child: TabInfo, parent: TabInfo): (r: Option<string>)
    ensures child.parentColumnId in parent.columnNamesById ==> r == Some(parent.columnNamesById[child.parentColumnId])
    ensures child.parentColumnId !in parent.columnNamesById ==> r == parent.keyColumnName
  {
    if child.parentColumnId in parent.columnNamesById then Some(parent.columnNamesById[child.parentColumnId])
    else parent.keyColumnName
  }

  /** The only element of a one-element set. */
  function TheElement(s: set<string>): (x: string)
    requires |s| == 1
    ensures s == {x}
  {
    var x :| x in s;
    assert s == {x} by {
      assert |s - {x}| == 0;
      assert s - {x} == {};
    }
    x
  }

  /** `extractChildParentLinkColumnNames(childTabVO, parentTabVO)`: the pair
      (child link column, parent link column), or `None` for null. */
  function ExtractChildParentLinkColumnNames(child: TabInfo, parent: Option<TabInfo>): (r: Option<(string, string)>)
    ensures r.Some? <==> parent.Some? && ParentLinkColumnName(child, parent.value).Some? &&
                         (|child.linkColumnNames| == 1 || ParentLinkColumnName(child, parent.value).value in child.linkColumnNames)
    ensures r.Some? ==> r.value.1 == ParentLinkColumnName(child, parent.value).value
    ensures r.Some? ==> r.value.0 in child.linkColumnNames
    ensures r.Some? && |child.linkColumnNames| > 1 ==> r.value.0 == r.value.1
  {
    if parent.None? then None
    else
      var parentLink := ParentLinkColumnName(child, parent.value);
      if parentLink.None? then None
      else if |child.linkColumnNames| == 0 then None
      else if |child.linkColumnNames| == 1 then Some((TheElement(child.linkColumnNames), parentLink.value))
      else if parentLink.value in child.linkColumnNames then Some((parentLink.value, parentLink.value))
      else None
  }

  // ---------------------------------------------------------------------------
  // Fields

  datatype FieldInfo = FieldInfo(
    columnName: string,
    isKey: bool,
    isReadOnly: bool,
    isUpdateable: bool,
    isParentLink: bool,          // AD_Column.IsParentLink
    readOnlyLogic: LogicExpr,
    sortNo: Int32,
    isVirtualColumn: bool,
    isAlwaysUpdateable: bool,
    isMandatory: bool,
    mandatoryLogic: LogicExpr,
    adProcessId: int)

  datatype ButtonAction =
    | ProcessCall(processId: int)
    | GenericZoomInto(tableIdFieldName: string)

  /** `extractButtonFieldActionDescriptor(tableName, fieldName, adProcessId)`.
      `zoomTarget(table, field)` is the table-id column of a record column
      (None when the field is not a record column or has none). */
  function ExtractButtonAction(tableName: Option<string>, fieldName: string, adProcessId: int,
                               zoomTarget: (string, string) -> Option<string>): (r: Option<ButtonAction>)
    ensures adProcessId > 0 && (fieldName == DOC_ACTION_FIELD_NAME || fieldName == PROCESSING_FIELD_NAME) ==> r.None?
    ensures adProcessId > 0 && fieldName != DOC_ACTION_FIELD_NAME && fieldName != PROCESSING_FIELD_NAME ==>
              r == Some(ProcessCall(adProcessId))
    ensures r.Some? && r.value.GenericZoomInto? ==>
              adProcessId <= 0 && tableName.Some? && zoomTarget(tableName.value, fieldName) == Some(r.value.tableIdFieldName)
    ensures adProcessId <= 0 ==>
              r == if tableName.Some? && zoomTarget(tableName.value, fieldName).Some?
                   then Some(GenericZoomInto(zoomTarget(tableName.value, fieldName).value))
                   else None
  {
    if adProcessId > 0 then
      if fieldName == DOC_ACTION_FIELD_NAME || fieldName == PROCESSING_FIELD_NAME then None
      else Some(ProcessCall(adProcessId))
    else if tableName.Some? then
      match zoomTarget(tableName.value, fieldName)
      case Some(t) => Some(GenericZoomInto(t))
      case None => None
    else None
  }

  /** `extractAlwaysUpdateable(gridFieldVO)`. */
  function ExtractAlwaysUpdateable(f: FieldInfo): (r: bool)
    ensures r <==> !f.isVirtualColumn && f.isUpdateable && (f.columnName == DOC_ACTION_FIELD_NAME || f.isAlwaysUpdateable)
  {
    if f.isVirtualColumn || !f.isUpdateable then false
    else if f.columnName == DOC_ACTION_FIELD_NAME then true
    else f.isAlwaysUpdateable
  }

  /** The ORDER BY sort number: a key column without a sort number goes last. */
  function OrderBySortNo(f: FieldInfo): (r: Int32)
    ensures f.sortNo == 0 && f.isKey ==> r == MAX_INT
    ensures !(f.sortNo == 0 && f.isKey) ==> r == f.sortNo
  {
    if f.sortNo == 0 && f.isKey then MAX_INT else f.sortNo
  }

  /** A key column without a sort number sorts after every other field. */
  lemma KeyWithoutSortNoSortsLast(key: FieldInfo, other: FieldInfo)
    requires key.isKey && key.sortNo == 0
    ensures OrderBySortNo(other) <= OrderBySortNo(key)
  {
  }

  /** Which widget type the field gets: the one derived from the display type,
      the parent link's Integer widget, or one of the two button widgets. */
  datatype WidgetChoice = DerivedWidget | IntegerWidget | ProcessButtonWidget | ZoomIntoButtonWidget

  /** The field builder settings the factory decides. `valueClass` is `None`
      where the class derived from the widget type and lookup is used, and
      `derivedDefault` says whether the default value expression is taken from
      the dictionary (otherwise there is none). */
  datatype FieldSettings = FieldSettings(
    parentLinkColumn: bool,
    widget: WidgetChoice,
    valueClass: Option<JClass>,
    derivedDefault: bool,
    alwaysUpdateable: bool,
    buttonAction: Option<ButtonAction>,
    readonlyLogic: LogicExpr,
    sortNo: Int32,
    mandatoryLogic: LogicExpr)

  /** The readonly logic of a field that is not the parent link column. */
  function DictionaryReadonlyLogic(f: FieldInfo): (r: LogicExpr)
    ensures f.isReadOnly ==> r == TRUE
    ensures !f.isReadOnly && !f.isUpdateable && !f.isParentLink ==> r == FALSE
    ensures !f.isReadOnly && (f.isUpdateable || f.isParentLink) ==> r == f.readOnlyLogic
  {
    if f.isReadOnly then TRUE
    else if !f.isUpdateable && !f.isParentLink then FALSE
    else f.readOnlyLogic
  }

  /** The decisions of `createAndAddDocumentField` for one field.
      `parentLinkColumnName` is the entity's parent link column, and
      `derivedIsButton` whether the widget derived from the display type is a
      button. */
  function CreateFieldSettings(f: FieldInfo, parentLinkColumnName: Option<string>, tableName: Option<string>,
                               derivedIsButton: bool, zoomTarget: (string, string) -> Option<string>): (r: FieldSettings)
    ensures r.parentLinkColumn <==> parentLinkColumnName == Some(f.columnName)
    ensures r.parentLinkColumn ==>
              r.widget == IntegerWidget && r.valueClass == Some(JInteger) && !r.derivedDefault &&
              !r.alwaysUpdateable && r.readonlyLogic == TRUE && r.buttonAction.None?
    ensures !r.parentLinkColumn ==> r.valueClass.None? && r.derivedDefault && r.alwaysUpdateable == ExtractAlwaysUpdateable(f)
    ensures !r.parentLinkColumn && r.widget == ZoomIntoButtonWidget ==> r.readonlyLogic == FALSE
    ensures !r.parentLinkColumn && r.widget != ZoomIntoButtonWidget ==> r.readonlyLogic == DictionaryReadonlyLogic(f)
    ensures r.widget == ZoomIntoButtonWidget <==> r.buttonAction.Some? && r.buttonAction.value.GenericZoomInto?
    ensures r.widget == ProcessButtonWidget <==> r.buttonAction.Some? && r.buttonAction.value.ProcessCall?
    ensures r.buttonAction.Some? ==> derivedIsButton
    ensures !r.parentLinkColumn ==>
              r.buttonAction == if derivedIsButton then ExtractButtonAction(tableName, f.columnName, f.adProcessId, zoomTarget) else None
    ensures r.sortNo == OrderBySortNo(f)
    ensures r.mandatoryLogic == if f.isMandatory then TRUE else f.mandatoryLogic
  {
    var isParentLinkColumn := parentLinkColumnName == Some(f.columnName);
    var mandatory := if f.isMandatory then TRUE else f.mandatoryLogic;
    if isParentLinkColumn then
      FieldSettings(true, IntegerWidget, Some(JInteger), false, false, None, TRUE, OrderBySortNo(f), mandatory)
    else
      var action := if derivedIsButton then ExtractButtonAction(tableName, f.columnName, f.adProcessId, zoomTarget) else None;
      var widget :=
        if action.Some? && action.value.ProcessCall? then ProcessButtonWidget
        else if action.Some? && action.value.GenericZoomInto? then ZoomIntoButtonWidget
        else DerivedWidget;
      var readonly := if widget == ZoomIntoButtonWidget then FALSE else DictionaryReadonlyLogic(f);
      FieldSettings(false, widget, None, true, ExtractAlwaysUpdateable(f), action, readonly, OrderBySortNo(f), mandatory)
  }

  /** A button field with a process, other than DocAction and Processing,
      becomes a process button calling that process. */
  lemma ProcessFieldBecomesProcessButton(f: FieldInfo, parentLinkColumnName: Option<string>, tableName: Option<string>,
                                         zoomTarget: (string, string) -> Option<string>)
    requires parentLinkColumnName != Some(f.columnName)
    requires f.adProcessId > 0 && f.columnName != DOC_ACTION_FIELD_NAME && f.columnName != PROCESSING_FIELD_NAME
    ensures var r := CreateFieldSettings(f, parentLinkColumnName, tableName, true, zoomTarget);
            r.widget == ProcessButtonWidget && r.buttonAction == Some(ProcessCall(f.adProcessId))
  {
  }

  /** A field flagged readonly in the dictionary stays readonly unless it
      turns out to be a zoom-into button, which must stay pressable. */
  lemma ReadonlyFieldStaysReadonly(f: FieldInfo, parentLinkColumnName: Option<string>, tableName: Option<string>,
                                   derivedIsButton: bool, zoomTarget: (string, string) -> Option<string>, compiled: string -> bool)
    requires f.isReadOnly
    ensures var r := CreateFieldSettings(f, parentLinkColumnName, tableName, derivedIsButton, zoomTarget);
            Holds(r.readonlyLogic, compiled) <==> r.widget != ZoomIntoButtonWidget
  {
  }

  /** A DocAction or Processing button never calls a process, whatever process
      it names. */
  lemma DocActionIsNoProcessButton(f: FieldInfo, parentLinkColumnName: Option<string>, tableName: Option<string>,
                                   derivedIsButton: bool, zoomTarget: (string, string) -> Option<string>)
    requires f.columnName == DOC_ACTION_FIELD_NAME || f.columnName == PROCESSING_FIELD_NAME
    requires f.adProcessId > 0
    ensures CreateFieldSettings(f, parentLinkColumnName, tableName, derivedIsButton, zoomTarget).buttonAction.None?
    ensures CreateFieldSettings(f, parentLinkColumnName, tableName, derivedIsButton, zoomTarget).widget in {DerivedWidget, IntegerWidget}
  {
  }
}
