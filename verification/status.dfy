/** The tri-state completion status shared by sections and checklists
    (Sources/AChecklist/Models/ACheclistStatus.swift). */
module Statuses {

  datatype Status = Checked | PartiallyChecked | Unchecked

}
