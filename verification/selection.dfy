/** The editor's selection and the hierarchy mask used to look up grid
    constraints. */
module Selection {
  import opened Results
  import opened Fxom

  /** GridSelectionGroup.Type: whole columns or whole rows of a grid. */
  datatype GridType = Column | Row

  /** Selection.getGroup(): the shapes a selection can take. */
  datatype SelectionGroup =
      /** ObjectSelectionGroup: the selected objects, in the order the
          group's item set is iterated. */
    | ObjectSelectionGroup(items: seq<FxObject>)
      /** GridSelectionGroup: row or column indexes within the grid `ancestor`. */
    | GridSelectionGroup(ancestor: FxObject, gridType: GridType, indexes: set<int>)
      /** Any other subclass of AbstractSelectionGroup, which the job does not handle. */
    | OtherSelectionGroup
      /** No group at all (`null`): nothing is selected. */
    | NoGroup

  /** DesignHierarchyMask built over one grid: the row or column constraints
      object at an index, or `None` where the mask returns `null`. */
  datatype HierarchyMask = HierarchyMask(
    columnConstraintsAt: int -> Option<FxObject>,
    rowConstraintsAt: int -> Option<FxObject>)

  /** Builds the hierarchy mask of a container (`new DesignHierarchyMask(ancestor)`). */
  type MaskFactory = FxObject -> HierarchyMask

  /** The constraints object the job looks up for one selected index. */
  function ConstraintsAt(mask: HierarchyMask, gridType: GridType, index: int): Option<FxObject> {
    match gridType
    case Column => mask.columnConstraintsAt(index)
    case Row => mask.rowConstraintsAt(index)
  }

  /** The lookup found an FXOMInstance, as the job asserts it always does. */
  predicate IsInstanceAt(mask: HierarchyMask, gridType: GridType, index: int) {
    ConstraintsAt(mask, gridType, index).Some? && ConstraintsAt(mask, gridType, index).value.IsInstance()
  }

  /** The fatal conditions the job guards with assertions. */
  datatype Failure =
    | UnhandledGroup          // a selection group kind the job has no case for
    | ConstraintsNotInstance  // the mask returned null or a non-instance for a selected index
}
