/**
 * The item statuses and textfield shift directions of the sorted lists
 * (frontend/src/foundation/lists/enums.tsx). STATIC is the rest state the
 * planner lists name explicitly; the checklist component writes it as "no status".
 */
module ListEnums {
  datatype ItemStatus = New | Edit | Drag | Deleting | Pending | Static

  datatype ShiftDirection = Above | Below
}
