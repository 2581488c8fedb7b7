/**
  The records the core reads and writes, one per table: nullable columns are
  `Option`s, and the two ordered admin tables share `Tables.Row`.
 */
module Records {
  import opened Wrappers
  import opened Tables

  /** The singleton `event_info` row. */
  datatype EventInfo = EventInfo(
    id: string,
    title: string,
    eventDate: Option<string>,
    eventTime: Option<string>,
    location: Option<string>,
    venueName: Option<string>,
    description: Option<string>,
    additionalNotes: Option<string>,
    updatedAt: string)

  /** The own columns of a `checklist_items` row. */
  datatype ChecklistFields = ChecklistFields(title: string, description: Option<string>)

  /** The own columns of an `itinerary_items` row. */
  datatype ItineraryFields = ItineraryFields(
    title: string,
    description: Option<string>,
    date: Option<string>,
    startTime: Option<string>,
    endTime: Option<string>)

  type ChecklistItem = Row<ChecklistFields>

  type ItineraryItem = Row<ItineraryFields>

  /** A `checklist_progress` row: one attendee's completion of one checklist item. */
  datatype ChecklistProgress = ChecklistProgress(
    id: string,
    userId: string,
    itemId: string,
    completed: bool,
    completedAt: Option<string>)

  /** An `event_files` row. */
  datatype EventFile = EventFile(
    id: string,
    name: string,
    fileUrl: string,
    fileType: Option<string>,
    uploadedAt: string)

  datatype Role = User | Assistant

  /** A `chat_messages` row; the table's order is its `created_at` order. */
  datatype ChatMessage = ChatMessage(userId: string, role: Role, content: string)
}
