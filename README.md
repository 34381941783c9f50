# Hotel reservation system — a verified model of its core

The hotel reservation system is a desktop application for a small hotel. Its staff book
reservations, check the guests of a reservation in one by one, assign them to rooms, check
rooms out with a bill, and change the number of beds in a room. The application keeps three
tables in a database: RESERVATION, GUEST and ROOM. It shows each table in a window, with a
pop-up menu over the selected rows, and it fills in reservations and guests through two forms.

This project models in Dafny the logic that sits inside those windows and forms. The widgets,
dialogs and database are gone; what is left is a sequential engine over the three tables.

- **Entities** (`reservation.dfy`, `guest.dfy`, `room.dfy`). `Reservation`, `Guest` and `Room`
  are classes with their setters. A reservation keeps its derived *days to perform*, the days
  until its arrival or departure, with the Java `int` cast written out. The persisted value of
  each entity is a datatype.
- **The store** (`store.dfy`). The data access objects become a class `HotelStore` with one
  sequence per table, the generated ids and the tax rate. Its create, update, delete and find
  operations keep SQL semantics: an update or delete acts on every record with the id and fails
  when none has it, and a create with an id is an update.
- **The rules** (`reservation_rules.dfy`, `guest_rules.dfy`, `allocation_rules.dfy`,
  `checkout_rules.dfy`, `ui_rules.dfy`). These are pure functions and lemmas:
  - telephone and e-mail validation, the reservation form's problem report and the capacity
    check that refuses overbooking;
  - the guest form's report and its guest counter;
  - which rooms are offered when guests are assigned, and which rooms the move empties;
  - when a check-out may proceed, the bill, and the bed-count rule;
  - what the tables do to the store and to their rows over lists of guests.
- **The user interface** (`hotel_ui.dfy`). The forms and tables of the application become
  classes with the rows or field values they hold, and their actions become methods.
  Selected positions, the answers to dialogs and the current day are parameters.
- **The generic widgets** (`column.dfy`, `table.dfy`, `table_ui.dfy`, `message.dfy`, `menu.dfy`,
  `panel_controller.dfy`, `text.dfy`):
  - the typed table model and its columns;
  - shortened cell texts, hidden columns and the information dialog;
  - the tab and newline grid of the message dialogs;
  - the menus enabled by the number of selected rows;
  - the switch between the content panels.

Days are integers, counted from a fixed epoch. Money is `real`.

## Model

| member | source | states |
|---|---|---|
| Reservations.ToInt32 | src/main/java/cz/muni/fi/group05/room03/model/Reservation.java:83-85 | the `(int)` cast of a day count keeps its low 32 bits: the result is a 32-bit value congruent to the input, and equal to it when it is already in range |
| Reservations.DaysToPerform | src/main/java/cz/muni/fi/group05/room03/model/Reservation.java:81-89 | the days to perform always fit an `int` |
| Reservations.TerminalSortsLast | src/main/java/cz/muni/fi/group05/room03/model/Reservation.java:81-89 | a cancelled or ended reservation never has fewer days to perform than an upcoming or ongoing one, so sorting by that column puts it last |
| Reservations.UpcomingCountsDaysToArrival | src/main/java/cz/muni/fi/group05/room03/model/Reservation.java:82-83 | an upcoming stay that starts today or later, within the `int` range, counts exactly the days until its arrival |
| Reservations.DoingCountsDaysToDeparture | src/main/java/cz/muni/fi/group05/room03/model/Reservation.java:84-85 | an ongoing stay that ends today or later, within the `int` range, counts exactly the days until its departure |
| Reservations.TerminalShowsIntMax | src/main/java/cz/muni/fi/group05/room03/model/Reservation.java:86-88 | a cancelled or ended reservation shows the largest `int`, whatever its dates |
| Reservations.Reservation.constructor | src/main/java/cz/muni/fi/group05/room03/model/Reservation.java:21-33 | the new reservation holds the given fields, and its days to perform are computed for today |
| Reservations.Reservation.CalculateDaysToPerform | src/main/java/cz/muni/fi/group05/room03/model/Reservation.java:81-89 | the days to perform are set to the value for the current state and dates |
| Reservations.Reservation.SetState | src/main/java/cz/muni/fi/group05/room03/model/Reservation.java:72-75 | only the state changes among the persisted fields, and the days to perform are recomputed for the new state |
| Reservations.Reservation.SetId | src/main/java/cz/muni/fi/group05/room03/model/Reservation.java:95-97 | only the id changes |
| Guests.Guest.constructor | src/main/java/cz/muni/fi/group05/room03/model/Guest.java:15-23 | the new guest holds exactly the given fields |
| Guests.Guest.SetRoom | src/main/java/cz/muni/fi/group05/room03/model/Guest.java:37-39 | only the room changes |
| Guests.Guest.SetId | src/main/java/cz/muni/fi/group05/room03/model/Guest.java:57-59 | only the id changes |
| Rooms.Room.constructor | src/main/java/cz/muni/fi/group05/room03/model/Room.java:13-19 | the new room holds exactly the given fields |
| Rooms.Room.SetBeds | src/main/java/cz/muni/fi/group05/room03/model/Room.java:33-35 | only the number of beds changes |
| Rooms.Room.SetStatus | src/main/java/cz/muni/fi/group05/room03/model/Room.java:45-47 | only the status changes |
| Rooms.SeededRooms | src/main/java/cz/muni/fi/group05/room03/data/RoomDao.java:127-140 | thirteen rooms are created in an empty ROOM table, all vacant, each with one to seven beds |
| Rooms.SeededHotelHas48Beds | src/main/java/cz/muni/fi/group05/room03/data/RoomDao.java:127-140 | the rooms created at start-up hold 48 beds together |
| Columns.Column.constructor | src/main/java/cz/muni/fi/group05/room03/ui/table/util/Column.java:8-11 | the column keeps its class and stores its name upper-cased |
| Columns.Column.ValueOf | src/main/java/cz/muni/fi/group05/room03/ui/table/util/Column.java:26-30 | the value passes through unchanged exactly when it is a non-null instance of the column's class; otherwise the cast is refused |
| Columns.Of | src/main/java/cz/muni/fi/group05/room03/ui/table/util/Column.java:13-15 | a new column of that class whose name is upper-cased, so upper-casing it again changes nothing |
| Tables.NameCountIffUnique | src/main/java/cz/muni/fi/group05/room03/ui/table/util/Table.java:16-17 | comparing the number of distinct names with the number of columns detects exactly two columns sharing a name |
| Tables.Table.Create | src/main/java/cz/muni/fi/group05/room03/ui/table/util/Table.java:14-19 | a table is created, empty, exactly when the column names are unique; otherwise the duplicate-names error |
| Tables.IndexOf | src/main/java/cz/muni/fi/group05/room03/ui/table/util/Table.java:104-109 | the first position holding the column, or -1 exactly when the column is absent |
| Tables.Table.IsCellEditable | src/main/java/cz/muni/fi/group05/room03/ui/table/util/Table.java:45-47 | no cell is ever editable |
| Tables.Table.IndexedColumn | src/main/java/cz/muni/fi/group05/room03/ui/table/util/Table.java:104-109 | the position of the column when it belongs to the table, the unknown-column error otherwise |
| Tables.Table.GetRowValue | src/main/java/cz/muni/fi/group05/room03/ui/table/util/Table.java:37-39 | the cell is returned exactly when the row exists, the column belongs to the table and the cell is of the column's class; a missing row or an unknown column gives its own error |
| Tables.Table.SetValueAt | src/main/java/cz/muni/fi/group05/room03/ui/table/util/Table.java:53-59 | a non-null value of the column's class replaces exactly one cell of an existing row, and reading it back gives that value; every refusal leaves the rows unchanged and the rows keep fitting the columns |
| Tables.Table.AddRow | src/main/java/cz/muni/fi/group05/room03/ui/table/util/Table.java:61-67 | a row is appended exactly when it has one cell of the right class per column, and each cell reads back; otherwise the length error or the first offending cell is reported and nothing changes |
| Tables.Table.RemoveRow | src/main/java/cz/muni/fi/group05/room03/ui/table/util/Table.java:69-74 | an existing row is removed and the others keep their order; an index at or past the row count is refused and nothing changes |
| Messages.SplitAll | src/main/java/cz/muni/fi/group05/room03/ui/Message.java:17 | splitting at a separator yields at least one piece, none containing the separator |
| Messages.JoinSplitAll | src/main/java/cz/muni/fi/group05/room03/ui/Message.java:17 | joining the pieces with the separator gives the text back |
| Messages.SplitAllJoin | src/main/java/cz/muni/fi/group05/room03/ui/Message.java:17 | splitting a join of separator-free pieces gives the pieces back |
| Messages.DropTrailingEmpty | src/main/java/cz/muni/fi/group05/room03/ui/Message.java:17 | `String.split` drops only empty pieces, only at the end, and leaves a non-empty last piece |
| Messages.JavaSplit | src/main/java/cz/muni/fi/group05/room03/ui/Message.java:17 | no piece of `String.split` contains the separator |
| Messages.JavaSplitKeepsText | src/main/java/cz/muni/fi/group05/room03/ui/Message.java:17 | the pieces of `String.split`, with the dropped empty pieces put back, join to the text |
| Messages.SeparatorsOnlySplitToNothing | src/main/java/cz/muni/fi/group05/room03/ui/Message.java:17-18 | a message made only of line breaks splits into no lines, which leaves the maximum of line widths undefined |
| Messages.MaxWidth | src/main/java/cz/muni/fi/group05/room03/ui/Message.java:18 | the widest line's width bounds every line and is attained |
| Messages.MinWidth | src/main/java/cz/muni/fi/group05/room03/ui/Message.java:19 | the narrowest line's width is below every line and is attained |
| Messages.WidthsAgreeIffRectangular | src/main/java/cz/muni/fi/group05/room03/ui/Message.java:18-21 | the widest and narrowest line agree exactly when every line has the same number of cells |
| Messages.FlattenIndex | src/main/java/cz/muni/fi/group05/room03/ui/Message.java:23-27 | adding the cells line after line puts cell j of line i at position i times width plus j |
| Messages.GridOf | src/main/java/cz/muni/fi/group05/room03/ui/Message.java:16-29 | no lines is an error, lines of different widths are the formatting error, and otherwise the grid has one row per line and one column per cell |
| Messages.GridLayout | src/main/java/cz/muni/fi/group05/room03/ui/Message.java:22-27 | the grid holds rows times columns cells, filled row after row |
| Menus.EnabledFor | src/main/java/cz/muni/fi/group05/room03/ui/Menu.java:35-43 | with one selected row every item is enabled, with none no item is, with several only the items for any selection |
| Menus.Menu.Create | src/main/java/cz/muni/fi/group05/room03/ui/Menu.java:18-23 | a menu is made exactly when there are as many conditions as items |
| Menus.Menu.UpdateActions | src/main/java/cz/muni/fi/group05/room03/ui/Menu.java:35-43 | every item's enabled flag follows its condition for the number of selected rows; the items themselves stay |
| Menus.MenuBuilder.constructor | src/main/java/cz/muni/fi/group05/room03/ui/Menu.java:57-58 | a builder starts with no items and no conditions |
| Menus.MenuBuilder.AddMenuItem | src/main/java/cz/muni/fi/group05/room03/ui/Menu.java:59-63 | the item and its condition are appended side by side |
| Menus.MenuBuilder.Build | src/main/java/cz/muni/fi/group05/room03/ui/Menu.java:65-67 | building never trips the menu's size check, and the menu holds the collected items and conditions |
| Panels.FlagsFor | src/main/java/cz/muni/fi/group05/room03/ui/ContentPanelController.java:67-69 | the reservations button is highlighted for the reservation table and form, the guests button for the guest table and form, the rooms button for the room table |
| Panels.OneButtonPerPanel | src/main/java/cz/muni/fi/group05/room03/ui/ContentPanelController.java:67-69 | every panel highlights exactly one menu button |
| Panels.ContentPanelController.constructor | src/main/java/cz/muni/fi/group05/room03/ui/ContentPanelController.java:25-42 | no panel is active yet and no button is highlighted |
| Panels.ContentPanelController.SwitchPanelNow | src/main/java/cz/muni/fi/group05/room03/ui/ContentPanelController.java:65-71 | the panel becomes the active one and exactly its button is highlighted |
| Panels.ContentPanelController.SwitchPanel | src/main/java/cz/muni/fi/group05/room03/ui/ContentPanelController.java:54-63 | leaving a form switches only when the user confirms, leaving any other panel switches at once, and a declined switch changes nothing |
| TableView.TruncatedString | src/main/java/cz/muni/fi/group05/room03/ui/table/util/TableUI.java:70-76 | a value of at most 20 characters is kept; a longer one becomes its first 20 characters and "..."; the result is empty exactly when the value is |
| TableView.TruncatedStringIdempotent | src/main/java/cz/muni/fi/group05/room03/ui/table/util/TableUI.java:70-76 | shortening a shortened text changes nothing |
| TableView.FirstIndex | src/main/java/cz/muni/fi/group05/room03/ui/table/util/TableUI.java:87-89 | the first header equal to the name, or the number of headers when none is |
| TableView.Hidden | src/main/java/cz/muni/fi/group05/room03/ui/table/util/TableUI.java:83-97 | nothing is hidden for no name, an unknown name, or when one column is left; otherwise exactly the first matching column goes and the rest keep their order |
| TableView.HiddenAllKeepsOnlyHeaders | src/main/java/cz/muni/fi/group05/room03/ui/table/util/TableUI.java:99-101 | hiding columns never brings in a header that was not there |
| TableView.InfoLines | src/main/java/cz/muni/fi/group05/room03/ui/table/util/TableUI.java:137-142 | there is at most one line per column |
| TableView.InfoTextCanBreakDialog | src/main/java/cz/muni/fi/group05/room03/ui/table/util/TableUI.java:134-144 | a note holding a newline splits its line, and the dialog then refuses the uneven grid |
| TableView.Sanitized | src/main/java/cz/muni/fi/group05/room03/ui/table/util/TableUI.java:140 | the corrected line text: tabs and newlines in a value become spaces, everything else is kept |
| TableView.SafeInfoTextAlwaysShows | src/main/java/cz/muni/fi/group05/room03/ui/table/util/TableUI.java:134-144 | with the values sanitized, the dialog always lays out the text: one row of two cells per non-empty value |
| TableView.SafeInfoTextStep | src/main/java/cz/muni/fi/group05/room03/ui/table/util/TableUI.java:137-142 | each column appends its line after the earlier ones, and an empty value appends nothing |
| TableView.HeaderNames | src/main/java/cz/muni/fi/group05/room03/ui/table/util/TableUI.java:58-68 | the header shows the column names in order |
| TableView.TableUI.constructor | src/main/java/cz/muni/fi/group05/room03/ui/table/util/TableUI.java:58-68 | all columns are visible and, with nothing selected, every menu item is disabled |
| TableView.TableUI.RowSelectionChanged | src/main/java/cz/muni/fi/group05/room03/ui/table/util/TableUI.java:78-81 | the menu follows the number of selected rows |
| TableView.TableUI.HideColumn | src/main/java/cz/muni/fi/group05/room03/ui/table/util/TableUI.java:83-97 | the visible headers become the ones `Hidden` describes |
| TableView.TableUI.HideColumns | src/main/java/cz/muni/fi/group05/room03/ui/table/util/TableUI.java:99-101 | the visible headers become the ones left after hiding each column in turn |
| TableView.TableUI.ShowPersonalizedInfo | src/main/java/cz/muni/fi/group05/room03/ui/table/util/TableUI.java:134-144 | a column that cannot be read for the row is reported; otherwise the dialog shows the sanitized text, and with clean column names it always succeeds |
| TableView.TableUI.EntriesNamed | src/main/java/cz/muni/fi/group05/room03/ui/table/util/TableUI.java:137-142 | the lines read for a row are named after the columns, one per column |
| TableView.TableUI.EntriesErrorSticks | src/main/java/cz/muni/fi/group05/room03/ui/table/util/TableUI.java:138 | once one column cannot be read, the whole dialog fails with that error |
| Text.UpperCase | src/main/java/cz/muni/fi/group05/room03/ui/table/util/Column.java:10 | the upper-cased name has the same length, each ASCII letter a–z upper-cased, every other character kept, and no lower-case ASCII letter left |
| Text.UpperCaseIdempotent | src/main/java/cz/muni/fi/group05/room03/ui/table/util/Column.java:10 | upper-casing twice is upper-casing once |
| Text.WithoutSpacesAndHyphens | src/main/java/cz/muni/fi/group05/room03/ui/form/ReservationForm.java:101 | removing spaces and hyphens leaves no space or hyphen, and keeps every other character |
| Text.WithoutSpacesAndHyphensKeepsOthers | src/main/java/cz/muni/fi/group05/room03/ui/form/ReservationForm.java:101 | a number without spaces or hyphens is left as it is |
| ReservationRules.TelephoneMatchesPattern | src/main/java/cz/muni/fi/group05/room03/ui/form/ReservationForm.java:102 | the direct test (one to twelve digits, or a plus, a non-zero digit and one to fourteen more digits, so "+5" and a thirteen-digit number without a prefix are refused) accepts exactly what the telephone pattern accepts |
| ReservationRules.MatchesHasPatternSplit | src/main/java/cz/muni/fi/group05/room03/ui/form/ReservationForm.java:102 | every number the direct test accepts splits into an optional country prefix and one to twelve digits |
| ReservationRules.PatternSplitMatches | src/main/java/cz/muni/fi/group05/room03/ui/form/ReservationForm.java:102 | every split the pattern accepts passes the direct test |
| ReservationRules.EmailPatternShape | src/main/java/cz/muni/fi/group05/room03/ui/form/ReservationForm.java:96 | the e-mail pattern accepts exactly the addresses without whitespace, with one `@` that is not first, followed later by a dot that is neither next to it nor last |
| ReservationRules.EmailOkIsPattern | src/main/java/cz/muni/fi/group05/room03/ui/form/ReservationForm.java:95-97 | a filled-in address is correct exactly when it matches the pattern |
| ReservationRules.GetFilledInfo | src/main/java/cz/muni/fi/group05/room03/ui/form/ReservationForm.java:117-157 | the report holds the violated rules, each once, in the form's order |
| ReservationRules.ContactChecks | src/main/java/cz/muni/fi/group05/room03/ui/form/ReservationForm.java:119-129 | the name, telephone and e-mail problems come first, in that order, the malformed-telephone one only for a filled-in number |
| ReservationRules.AppendDateChecks | src/main/java/cz/muni/fi/group05/room03/ui/form/ReservationForm.java:130-149 | the dates are compared only when both are filled in, otherwise each missing date is reported |
| ReservationRules.ReportUpToEmail | src/main/java/cz/muni/fi/group05/room03/ui/form/ReservationForm.java:119-129 | the first four rules of the report order are the name, telephone and e-mail checks |
| ReservationRules.ReportDateComparisons | src/main/java/cz/muni/fi/group05/room03/ui/form/ReservationForm.java:132-141 | the three date comparisons follow the e-mail check in the report |
| ReservationRules.ReportMissingDates | src/main/java/cz/muni/fi/group05/room03/ui/form/ReservationForm.java:142-149 | the missing dates follow the date comparisons in the report |
| ReservationRules.ReportedAmongMembers | src/main/java/cz/muni/fi/group05/room03/ui/form/ReservationForm.java:117-157 | a problem is on the report of the first k rules exactly when it is among them and violated |
| ReservationRules.ViolationsMembers | src/main/java/cz/muni/fi/group05/room03/ui/form/ReservationForm.java:117-157 | the report names exactly the violated rules |
| ReservationRules.AllFilledIffOnlyBlankInfoViolated | src/main/java/cz/muni/fi/group05/room03/ui/form/ReservationForm.java:109-115 | the confirm button is enabled exactly when no rule is violated, except that an over-long info made only of whitespace is reported and yet does not disable it |
| ReservationRules.AllFilledIffNothingReported | src/main/java/cz/muni/fi/group05/room03/ui/form/ReservationForm.java:105-115 | the confirm button is enabled exactly when the report is empty, apart from a whitespace-only over-long info |
| ReservationRules.OverlapsIffSharedNight | src/main/java/cz/muni/fi/group05/room03/ui/form/ReservationForm.java:67-69 | two stays of at least one night overlap exactly when they share a night; a stay ending on the day another starts does not |
| ReservationRules.LoadOtherWithinOverlapping | src/main/java/cz/muni/fi/group05/room03/ui/form/ReservationForm.java:169-171 | on every night of the candidate's stay, the other guests in the hotel are among the people the capacity check counts |
| ReservationRules.LoadAfterReplace | src/main/java/cz/muni/fi/group05/room03/ui/form/ReservationForm.java:176-177 | after an edit is stored, a night's load is the others' load plus the edited reservation once for each record with its id |
| ReservationRules.AcceptedNewReservationKeepsCapacity | src/main/java/cz/muni/fi/group05/room03/ui/form/ReservationForm.java:169-177 | a new reservation the capacity check accepts keeps every night within the hotel's beds |
| ReservationRules.AcceptedEditKeepsCapacity | src/main/java/cz/muni/fi/group05/room03/ui/form/ReservationForm.java:169-177 | an edited reservation the capacity check accepts keeps every night within the hotel's beds |
| GuestRules.GetFilledInfo | src/main/java/cz/muni/fi/group05/room03/ui/form/GuestForm.java:99-111 | the report holds the violated rules (missing name, missing identity card of an adult, info over 1000 characters), each once, in that order |
| GuestRules.ReportedAmongMembers | src/main/java/cz/muni/fi/group05/room03/ui/form/GuestForm.java:99-111 | a problem is on the report of the first k rules exactly when it is among them and violated |
| GuestRules.AllFilledIffNothingReported | src/main/java/cz/muni/fi/group05/room03/ui/form/GuestForm.java:95-111 | the confirm button is enabled exactly when the report is empty |
| GuestRules.CheckInOnLastGuest | src/main/java/cz/muni/fi/group05/room03/ui/form/GuestForm.java:52-61 | checking in n guests, the k-th confirmation is for guest k; only the n-th stores the guests and checks the reservation in, and the button reads "confirm" exactly before that one |
| Store.FindReservation | src/main/java/cz/muni/fi/group05/room03/data/ReservationDao.java:130-152 | a reservation with the id is returned exactly when one is stored, and it is a stored record with that id |
| Store.WithoutGuests | src/main/java/cz/muni/fi/group05/room03/data/GuestDao.java:50-64 | the remaining guests are exactly the stored ones whose id is not deleted |
| Store.WithoutGuestsTwice | src/main/java/cz/muni/fi/group05/room03/data/GuestDao.java:50-64 | deleting one more guest after a set of them is deleting the larger set |
| Store.GuestsInRoom | src/main/java/cz/muni/fi/group05/room03/data/GuestDao.java:106-113 | the guests returned are exactly the stored guests placed in the room |
| Store.GuestsOfReservation | src/main/java/cz/muni/fi/group05/room03/data/GuestDao.java:115-122 | the guests returned are exactly the stored guests of the reservation |
| Store.CountWithRoom | src/main/java/cz/muni/fi/group05/room03/data/GuestDao.java:157-171 | the count is zero exactly when no guest is placed in a room |
| Store.FindRoom | src/main/java/cz/muni/fi/group05/room03/data/RoomDao.java:75-93 | a room with the number is returned exactly when one is stored, and it is a stored room with that number |
| Store.HotelStore.constructor | src/main/java/cz/muni/fi/group05/room03/data/RoomDao.java:125-141 | a fresh database holds no reservations or guests, the seeded rooms and a tax of 2 percent |
| Store.HotelStore.UpdateReservation | src/main/java/cz/muni/fi/group05/room03/data/ReservationDao.java:70-103 | a reservation without an id is refused; otherwise the update succeeds exactly when a record has the id, replaces every such record, and a failure changes nothing |
| Store.HotelStore.CreateReservation | src/main/java/cz/muni/fi/group05/room03/data/ReservationDao.java:22-51 | a reservation with an id is updated; one without is appended and given the next generated id |
| Store.HotelStore.UpdateGuest | src/main/java/cz/muni/fi/group05/room03/data/GuestDao.java:66-95 | a guest without an id is refused; otherwise the update succeeds exactly when a record has the id, replaces every such record, and a failure changes nothing |
| Store.HotelStore.CreateGuest | src/main/java/cz/muni/fi/group05/room03/data/GuestDao.java:22-48 | a guest with an id is updated; one without is appended and given the next generated id |
| Store.HotelStore.DeleteGuest | src/main/java/cz/muni/fi/group05/room03/data/GuestDao.java:50-64 | a guest without an id is refused; otherwise the delete succeeds exactly when a record has the id and removes every such record |
| Store.HotelStore.UpdateRoom | src/main/java/cz/muni/fi/group05/room03/data/RoomDao.java:37-51 | the update succeeds exactly when a room has the number, replaces it, and a failure changes nothing |
| AllocationRules.Occupants | src/main/java/cz/muni/fi/group05/room03/ui/table/GuestTable.java:118-122 | a room never counts more occupants than there are guests |
| AllocationRules.GuestsInRoomCountsOccupants | src/main/java/cz/muni/fi/group05/room03/ui/table/GuestTable.java:146 | the guests found by room number are exactly the room's occupants, counted |
| AllocationRules.AvailableRooms | src/main/java/cz/muni/fi/group05/room03/ui/table/GuestTable.java:127-134 | the rooms offered are exactly those vacant or already holding a guest of the reservation, whose beds take their occupants and the selection |
| AllocationRules.OfferedRoomsFit | src/main/java/cz/muni/fi/group05/room03/ui/table/GuestTable.java:129-130 | a room offered to a selection is never one its beds could not hold |
| AllocationRules.MovedOccupants | src/main/java/cz/muni/fi/group05/room03/ui/table/GuestTable.java:75-78 | after the move, a room holds its occupants minus the selected guests leaving it, plus the whole selection when it is the target |
| AllocationRules.AssignedRoomNotOverfilled | src/main/java/cz/muni/fi/group05/room03/ui/table/GuestTable.java:68-78 | assigning a selection to an offered room never puts more guests in it than it has beds |
| AllocationRules.AssignAsWrittenCanVacateTarget | src/main/java/cz/muni/fi/group05/room03/ui/table/GuestTable.java:75-77 | as written, moving both guests of room A back into room A marks it occupied first and then vacant, leaving it vacant with two guests in it |
| AllocationRules.FixedAssignKeepsStatusTruthful | src/main/java/cz/muni/fi/group05/room03/ui/table/GuestTable.java:75-77 | freeing the emptied rooms first and marking the target occupied last keeps every room occupied exactly when some guest is in it |
| CheckoutRules.GuestsInRooms | src/main/java/cz/muni/fi/group05/room03/ui/table/RoomTable.java:53 | the guests leaving are exactly the stored guests recorded in a selected room |
| CheckoutRules.Verdict | src/main/java/cz/muni/fi/group05/room03/ui/table/RoomTable.java:51-62 | a check-out that proceeds removes the guests recorded in the selected rooms |
| CheckoutRules.VerdictProceedsIff | src/main/java/cz/muni/fi/group05/room03/ui/table/RoomTable.java:51-62 | a check-out proceeds exactly when every selected room is occupied and the guests in them are some guests of a single reservation; it then removes exactly those guests |
| CheckoutRules.RoomsByKey | src/main/java/cz/muni/fi/group05/room03/ui/table/RoomTable.java:52 | the selected rooms are indexed by exactly their numbers |
| CheckoutRules.ChargeIsNightsTimesRate | src/main/java/cz/muni/fi/group05/room03/ui/table/RoomTable.java:64-65 | the charge is the nights of the stay times the sum of each leaving guest's room price |
| CheckoutRules.TaxFormulasAgree | src/main/java/cz/muni/fi/group05/room03/ui/table/RoomTable.java:185-195 | the two tax formulas of the room table agree on exact numbers, and tax never lowers a non-negative total |
| CheckoutRules.BedEdit | src/main/java/cz/muni/fi/group05/room03/ui/table/RoomTable.java:108-122 | an accepted bed count is the one asked for and lies between one and seven; a count below one is exactly the negative-beds warning; the full warning comes only for fewer beds than guests |
| CheckoutRules.BedEditKeepsGuestsBedded | src/main/java/cz/muni/fi/group05/room03/ui/table/RoomTable.java:108-122 | a room holding no more guests than beds still does after an accepted change, and a change that keeps every guest bedded is never refused for fullness |
| UiRules.FirstReservationRow | src/main/java/cz/muni/fi/group05/room03/ui/table/ReservationTable.java:114-115 | the index of the first row whose id column equals the id, and -1 exactly when no row has it |
| UiRules.FirstGuestRow | src/main/java/cz/muni/fi/group05/room03/ui/table/GuestTable.java:93-98 | the index of the first guest row with the id, and -1 exactly when no row has it |
| UiRules.WithoutFirstRow | src/main/java/cz/muni/fi/group05/room03/ui/table/GuestTable.java:93-98 | with no row holding the id nothing changes, otherwise exactly one row goes and no other row appears |
| UiRules.Persisted | src/main/java/cz/muni/fi/group05/room03/data/GuestDao.java:22-48 | a create fails exactly when the guest has an id no stored guest has; a success grows the table by one for a new guest, by none for an update, and holds the guest as persisted |
| UiRules.PersistedAllKeeps | src/main/java/cz/muni/fi/group05/room03/ui/table/GuestTable.java:83-88 | every guest created in turn ends up with an id, a guest that had one keeps it unchanged, and only the id of the others changes |
| UiRules.CreatedAllNew | src/main/java/cz/muni/fi/group05/room03/ui/table/GuestTable.java:83-88 | creating guests that are all new always succeeds, appends them in order and numbers them consecutively from the next generated id |
| UiRules.UpdateAllErrSticks | src/main/java/cz/muni/fi/group05/room03/ui/table/GuestTable.java:78 | once one update of a guest list fails, the whole list fails with that error |
| UiRules.UpdateAllMoves | src/main/java/cz/muni/fi/group05/room03/ui/table/GuestTable.java:78 | updating stored guests with their new room succeeds, keeps the table's length and ids, and records the target room for each moved guest |
| UiRules.DeleteAllErrSticks | src/main/java/cz/muni/fi/group05/room03/ui/table/GuestTable.java:90-100 | once one delete of a guest list fails, the whole list fails with that error |
| UiRules.DeleteStoredGuests | src/main/java/cz/muni/fi/group05/room03/ui/table/GuestTable.java:90-100 | deleting stored guests with distinct ids succeeds and leaves exactly the guests whose ids were not deleted |
| UiRules.FilteredGuestsKeyed | src/main/java/cz/muni/fi/group05/room03/ui/table/RoomTable.java:53 | the guests picked out of a keyed guest table by room are keyed too, so their deletion is well defined |
| UiRules.WithStatus | src/main/java/cz/muni/fi/group05/room03/ui/table/RoomTable.java:81-92 | setting a status by key keeps the number of rooms and every key |
| UiRules.ReplaceOneRoom | src/main/java/cz/muni/fi/group05/room03/data/RoomDao.java:37-51 | with distinct keys an update by key changes exactly the one room with that key |
| UiRules.VacateRooms | src/main/java/cz/muni/fi/group05/room03/ui/table/GuestTable.java:137-150 | vacating the emptied rooms keeps the number of rooms |
| UiRules.VacateStepByStep | src/main/java/cz/muni/fi/group05/room03/ui/table/GuestTable.java:145-149 | handling one more source room either vacates it (when the move empties it) or leaves the rooms as they were, whatever the order of the keys |
| UiRules.MovingCountPositive | src/main/java/cz/muni/fi/group05/room03/ui/table/GuestTable.java:139-144 | a room is counted as a source exactly when some selected guest is leaving it |
| UiRules.VacatedAreSources | src/main/java/cz/muni/fi/group05/room03/ui/table/GuestTable.java:137-150 | every room the move empties is a counted source room, so the key loop vacates exactly the emptied rooms; marking the target afterwards gives the corrected assignment's rooms |
| UiRules.SameIdSameReservation | src/main/java/cz/muni/fi/group05/room03/ui/table/ReservationTable.java:110-119 | in a keyed reservation table two stored reservations with the same id are the same reservation |
| UiRules.KeyedAfterReplace | src/main/java/cz/muni/fi/group05/room03/data/ReservationDao.java:70-103 | an update by the id of a stored reservation keeps the table keyed, stores the new version and keeps every other reservation |
| UiRules.ShownAfterUpdate | src/main/java/cz/muni/fi/group05/room03/ui/table/ReservationTable.java:61-76 | writing a new version of a shown reservation into the store and over its row keeps every row showing a stored reservation, one row per reservation |
| UiRules.ShownAfterInsert | src/main/java/cz/muni/fi/group05/room03/ui/table/ReservationTable.java:91-94 | a reservation inserted under the next generated id and shown as a new last row keeps the store keyed and the rows shown |
| UiRules.ShownAfterEdit | src/main/java/cz/muni/fi/group05/room03/ui/table/ReservationTable.java:91-94 | an edited reservation written under its own id and shown as a new last row keeps the rows shown when its old row was removed first |
| UiRules.WithoutRow | src/main/java/cz/muni/fi/group05/room03/ui/table/util/Table.java:69-74 | removing a row keeps the other rows, in order, one fewer |
| UiRules.ShownAfterRemove | src/main/java/cz/muni/fi/group05/room03/ui/table/ReservationTable.java:121-126 | removing a row keeps the others shown and no remaining row shows the removed reservation |
| UiRules.KeyedCountsOne | src/main/java/cz/muni/fi/group05/room03/ui/form/ReservationForm.java:169-171 | in a keyed reservation table at most one reservation carries any id, so excluding the edited reservation's id excludes only it |
| HotelUi.RoomTable.constructor | src/main/java/cz/muni/fi/group05/room03/ui/table/RoomTable.java:37-49 | the room table shows every stored room, in store order |
| HotelUi.RoomTable.ChangeStatus | src/main/java/cz/muni/fi/group05/room03/ui/table/RoomTable.java:81-92 | the room with the key gets the status in its row and in the store; the table keeps showing the store |
| HotelUi.RoomTable.RoomEditAction | src/main/java/cz/muni/fi/group05/room03/ui/table/RoomTable.java:98-126 | a bed edit on the selected row is stored and shown exactly when the bed rule accepts it, otherwise the refusal is reported and nothing changes; an accepted edit never leaves a room's guests without beds |
| HotelUi.RoomTable.CheckOut | src/main/java/cz/muni/fi/group05/room03/ui/table/RoomTable.java:51-79 | warnings for vacant or mixed rooms, and a missing reservation, leave the rooms, the guests, the reservations and both tables unchanged; otherwise the leaving guests go from store and guest table, the rooms become vacant, the reservation ends once none of its guests remain (in the store and in its first row of the reservation table, which shows the largest `int`), and the bill is shown unless that row is missing |
| HotelUi.RoomTable.Settle | src/main/java/cz/muni/fi/group05/room03/ui/table/RoomTable.java:63-78 | the steps after the check-out checks: guests removed from store and guest table, rooms vacated, reservation ended in the store and in its first row once emptied, the reservation table untouched otherwise, and the bill shown unless its row is missing |
| HotelUi.RoomTable.EndStay | src/main/java/cz/muni/fi/group05/room03/ui/table/RoomTable.java:74-78 | the reservation ends, in the store and in its first row of the reservation table, exactly when it has no guests left; otherwise store and table are unchanged; the bill is shown unless its row cannot be found, in which case no row changes |
| HotelUi.RoomTable.Release | src/main/java/cz/muni/fi/group05/room03/ui/table/RoomTable.java:66-73 | the guests of the selected rooms leave the store and the guest table, and every selected room becomes vacant |
| HotelUi.RoomTable.VacateSelected | src/main/java/cz/muni/fi/group05/room03/ui/table/RoomTable.java:67-73 | every selected room becomes vacant in its row and in the store |
| HotelUi.Bill | src/main/java/cz/muni/fi/group05/room03/ui/table/RoomTable.java:64-65 | the bill counts the leaving guests, charges each guest's room rate for every night of the stay and adds the configured tax |
| HotelUi.GuestTable.constructor | src/main/java/cz/muni/fi/group05/room03/ui/table/GuestTable.java:44-57 | the guest table shows every stored guest, in store order |
| HotelUi.GuestTable.CreateGuest | src/main/java/cz/muni/fi/group05/room03/ui/table/GuestTable.java:84-87 | the guest is persisted and shown as a new last row exactly when the store accepts it; a new guest gets the next generated id |
| HotelUi.GuestTable.CreateGuests | src/main/java/cz/muni/fi/group05/room03/ui/table/GuestTable.java:83-88 | all guests are persisted and shown in order when every create succeeds; the generated ids advance by the number of new guests; a failure is reported |
| HotelUi.GuestTable.DeleteGuests | src/main/java/cz/muni/fi/group05/room03/ui/table/GuestTable.java:90-100 | each guest is deleted from the store and its first row removed; the first failed delete is reported |
| HotelUi.GuestTable.RemoveGuestRow | src/main/java/cz/muni/fi/group05/room03/ui/table/GuestTable.java:93-98 | the first row with the guest's id goes, if there is one |
| HotelUi.GuestTable.RemoveEditingRow | src/main/java/cz/muni/fi/group05/room03/ui/table/GuestTable.java:106-108 | the selected row goes; with no row there the removal fails and nothing changes |
| HotelUi.GuestTable.GetAvailableRooms | src/main/java/cz/muni/fi/group05/room03/ui/table/GuestTable.java:114-135 | the two loops offer exactly the rooms of the eligibility rule, in room order |
| HotelUi.GuestTable.MoveGuestsBetweenRooms | src/main/java/cz/muni/fi/group05/room03/ui/table/GuestTable.java:137-150 | every room the selected guests empty becomes vacant, and no other room changes |
| HotelUi.GuestTable.AssignRoomAction | src/main/java/cz/muni/fi/group05/room03/ui/table/GuestTable.java:59-81 | mixed reservations, no room offered or no choice leave everything unchanged; otherwise the rows show the chosen room, emptied rooms become vacant, the target occupied, and the guests are stored in it. For a selection of stored guests with distinct ids the update succeeds, the chosen room holds no more guests than it has beds, and truthful room statuses stay truthful |
| AllocationRules.OccupantsUpdate | src/main/java/cz/muni/fi/group05/room03/ui/table/GuestTable.java:79 | updating one guest's record takes one occupant from the old record's room and adds one to the new record's room |
| AllocationRules.MovedAt | src/main/java/cz/muni/fi/group05/room03/ui/table/GuestTable.java:79 | after the move each selected guest, and no other, is recorded in the target room with every other field kept |
| UiRules.UpdatesAreMove | src/main/java/cz/muni/fi/group05/room03/ui/table/GuestTable.java:79 | updating each selected stored guest into the target room, in turn, succeeds and records exactly those guests there, every other field and record kept |
| UiRules.MovedByIdsCounts | src/main/java/cz/muni/fi/group05/room03/ui/table/GuestTable.java:75-79 | moving a stored selection takes one occupant per selected guest out of its old room and puts the whole selection in the target room |
| UiRules.MoveOneMore | src/main/java/cz/muni/fi/group05/room03/ui/table/GuestTable.java:79 | moving one more selected guest changes only that guest's record, found at its position in the keyed table |
| UiRules.UpdateLastAt | src/main/java/cz/muni/fi/group05/room03/ui/table/GuestTable.java:79 | in a keyed table the last update replaces exactly the record at the position with that id |
| UiRules.MaskMoves | src/main/java/cz/muni/fi/group05/room03/ui/table/GuestTable.java:79 | moving the guests with the selection's ids is the move of the selection's mask over the stored guests |
| UiRules.MaskCountsRoom | src/main/java/cz/muni/fi/group05/room03/ui/table/GuestTable.java:75-79 | the mask of a stored selection takes as many guests from each room as the selection holds |
| UiRules.SelectionIsMask | src/main/java/cz/muni/fi/group05/room03/ui/table/GuestTable.java:75-79 | the mask of a stored selection selects as many guests as the selection, and as many from each room |
| UiRules.StoredAssignKeepsStatusTruthful | src/main/java/cz/muni/fi/group05/room03/ui/table/GuestTable.java:75-79 | with the target set occupied last, assigning a stored selection keeps every room's status truthful |
| UiRules.StoredAssignFits | src/main/java/cz/muni/fi/group05/room03/ui/table/GuestTable.java:75-79 | assigning a stored selection to a room offered to it never puts more guests in it than it has beds |
| UiRules.StoredAssignment | src/main/java/cz/muni/fi/group05/room03/ui/table/GuestTable.java:59-81 | an offered room, assigned a stored selection, keeps its guests within its beds, and truthful statuses stay truthful |
| HotelUi.GuestTable.ShowRoom | src/main/java/cz/muni/fi/group05/room03/ui/table/GuestTable.java:76 | the rows at the selected positions show the chosen room, the others are unchanged |
| HotelUi.GuestTable.UpdateMoved | src/main/java/cz/muni/fi/group05/room03/ui/table/GuestTable.java:78 | each moved guest is updated in turn; the first failure is reported |
| HotelUi.GuestTable.GuestEditAction | src/main/java/cz/muni/fi/group05/room03/ui/table/GuestTable.java:152-159 | the guest form shows the selected guest with its room, id and reservation, in editing mode, and is switched to when allowed |
| HotelUi.ReservationTable.constructor | src/main/java/cz/muni/fi/group05/room03/ui/table/ReservationTable.java:41-55 | every stored reservation becomes a row, in store order, with its days to perform counted from today |
| HotelUi.ReservationTable.CancelAction | src/main/java/cz/muni/fi/group05/room03/ui/table/ReservationTable.java:61-76 | only a confirmed upcoming reservation is cancelled, in its row and in the store, and its row then agrees with any later load of the table |
| HotelUi.ReservationTable.CreateReservation | src/main/java/cz/muni/fi/group05/room03/ui/table/ReservationTable.java:91-94 | the reservation is inserted under the next id or written over its stored version and shown as a new last row; a failed write adds no row |
| HotelUi.ReservationTable.CheckInReservation | src/main/java/cz/muni/fi/group05/room03/ui/table/ReservationTable.java:96-104 | the selected reservation is in progress in the store and in its row, which shows the days to departure |
| HotelUi.ReservationTable.CheckOutReservation | src/main/java/cz/muni/fi/group05/room03/ui/table/ReservationTable.java:110-119 | the reservation ends in the store, and in its first row when one shows it; with no such row the row update fails after the store has changed |
| HotelUi.ReservationTable.StoreEnded | src/main/java/cz/muni/fi/group05/room03/ui/table/ReservationTable.java:111-113 | the ended reservation replaces its stored version when one exists |
| HotelUi.ReservationTable.RowOfReservation | src/main/java/cz/muni/fi/group05/room03/ui/table/ReservationTable.java:114-115 | the search returns the first row showing the id, -1 when none does |
| HotelUi.ReservationTable.RemoveIfSelected | src/main/java/cz/muni/fi/group05/room03/ui/table/ReservationTable.java:121-126 | with a selection the selected row goes and no remaining row shows its reservation; without one nothing changes |
| HotelUi.ReservationTable.CreateCheckInButtonAction | src/main/java/cz/muni/fi/group05/room03/ui/table/ReservationTable.java:128-137 | an upcoming reservation hands its people count and id to the guest form, which is shown; any other reservation is refused with nothing changed |
| HotelUi.ReservationTable.ReservationEditAction | src/main/java/cz/muni/fi/group05/room03/ui/table/ReservationTable.java:139-145 | the reservation form shows the selected reservation, its id and the fields its state leaves editable |
| HotelUi.EditableIn | src/main/java/cz/muni/fi/group05/room03/ui/form/ReservationForm.java:71-73 | every field is editable exactly for an upcoming stay; a stay in progress opens only departure and note; a cancelled or ended one nothing |
| HotelUi.Candidate | src/main/java/cz/muni/fi/group05/room03/ui/form/ReservationForm.java:166-168 | the reservation built from the fields shows exactly those fields again and carries the form's id |
| HotelUi.ReservationForm.constructor | src/main/java/cz/muni/fi/group05/room03/ui/form/ReservationForm.java:41-65 | a new form is empty, for a new reservation, with every field editable |
| HotelUi.ReservationForm.SetState | src/main/java/cz/muni/fi/group05/room03/ui/form/ReservationForm.java:71-73 | only the state changes |
| HotelUi.ReservationForm.FillBasedOn | src/main/java/cz/muni/fi/group05/room03/ui/form/ReservationForm.java:75-93 | the form shows the reservation, remembers its id and opens the fields its state allows |
| HotelUi.ReservationForm.OnHidden | src/main/java/cz/muni/fi/group05/room03/ui/form/ReservationForm.java:58-64 | hiding resets the fields, forgets the id and makes the state upcoming |
| HotelUi.ReservationForm.ConfirmAction | src/main/java/cz/muni/fi/group05/room03/ui/form/ReservationForm.java:164-179 | an unfilled form reports its violations, an over-capacity reservation is refused, both with nothing changed; an accepted one is stored (new under the next id, or over its earlier version), the selected row is removed and the reservation shown as a new last row with its days to perform, the table is shown, and every night stays within the hotel's beds |
| HotelUi.ReservationForm.Save | src/main/java/cz/muni/fi/group05/room03/ui/form/ReservationForm.java:166-177 | a new reservation is appended under the next id; an edited one replaces its stored version, and fails with nothing changed when it is gone; a stored reservation is shown as a new last row with its days to perform counted from today |
| HotelUi.ReservationForm.CancelAction | src/main/java/cz/muni/fi/group05/room03/ui/form/ReservationForm.java:181-183 | the reservation table is shown when leaving is allowed, otherwise nothing changes |
| HotelUi.GuestForm.constructor | src/main/java/cz/muni/fi/group05/room03/ui/form/GuestForm.java:32-51 | a new form is empty, at the first guest, labelled add-next, not editing and with no guests entered |
| HotelUi.GuestForm.OnShown | src/main/java/cz/muni/fi/group05/room03/ui/form/GuestForm.java:54-61 | showing restarts at the first guest and labels the button confirm exactly when editing or checking in one guest |
| HotelUi.GuestForm.OnHidden | src/main/java/cz/muni/fi/group05/room03/ui/form/GuestForm.java:62-68 | hiding forgets the id and the guests entered and resets the fields |
| HotelUi.GuestForm.FillBasedOn | src/main/java/cz/muni/fi/group05/room03/ui/form/GuestForm.java:72-80 | the form shows the guest and takes over its room, id and reservation |
| HotelUi.GuestForm.CancelActionAsWritten | src/main/java/cz/muni/fi/group05/room03/ui/form/GuestForm.java:82-89 | as written: back to the guest table when editing, otherwise the reservation table, when leaving is allowed; editing ends even when the user stays |
| HotelUi.GuestForm.CancelAction | src/main/java/cz/muni/fi/group05/room03/ui/form/GuestForm.java:82-89 | corrected: the same switch, and editing ends exactly when the form is left |
| HotelUi.DeclinedCancelKeepsGuestForm | src/main/java/cz/muni/fi/group05/room03/ui/ContentPanelController.java:54-63 | the guest form is a form, and leaving it when the user declines does not happen: the input on which the cancel button as written loses the edit |
| HotelUi.GuestForm.AddNext | src/main/java/cz/muni/fi/group05/room03/ui/form/GuestForm.java:118-138 | an unfilled form reports its violations with the form, the store, both tables and the panels unchanged; otherwise the guest joins those entered; an edit is saved and its row replaced; the last guest of a check-in saves all, shows their rows, checks the reservation in and shows its row in progress; any other guest advances the count and changes no table or panel; each branch states the editing flag, the guest count and the button label it leaves alone, so the contract chains over the presses of a check-in as `GuestRules.Step` does |
| HotelUi.GuestForm.SaveEdited | src/main/java/cz/muni/fi/group05/room03/ui/form/GuestForm.java:122-126 | the guests entered are stored, the edited row gives way to their new rows, editing ends and the guest table is shown; on failure editing stays as it was |
| HotelUi.GuestForm.SaveCheckIn | src/main/java/cz/muni/fi/group05/room03/ui/form/GuestForm.java:130-133 | the guests entered are stored and shown as new last rows with their generated ids, the guest table is shown, and the reservation is checked in, in the store and in its row, which shows the days to its departure |
| HotelUi.SharedReservation | src/main/java/cz/muni/fi/group05/room03/ui/table/GuestTable.java:60-67 | the check passes exactly when every selected guest has the first guest's reservation |
| HotelUi.Occupancy | src/main/java/cz/muni/fi/group05/room03/ui/table/GuestTable.java:115-126 | the first loop counts each room's recorded guests and collects exactly the rooms holding guests of the reservation |
| HotelUi.EligibleKeys | src/main/java/cz/muni/fi/group05/room03/ui/table/GuestTable.java:127-134 | the second loop keeps exactly the rooms the eligibility rule offers |
| HotelUi.CountedRoomVacates | src/main/java/cz/muni/fi/group05/room03/ui/table/GuestTable.java:146 | comparing a room's stored guests with the number leaving it decides exactly whether the move empties it |
| HotelUi.CountLeaving | src/main/java/cz/muni/fi/group05/room03/ui/table/GuestTable.java:138-144 | the map counts, for each non-empty source room, how many selected guests leave it |
| ReservationRules.LoadOtherWithinLoad | src/main/java/cz/muni/fi/group05/room03/ui/form/ReservationForm.java:169-171 | leaving out the reservation with the candidate's id never raises a night's load above the load of all reservations |
| ReservationRules.LoadOtherOfNoId | src/main/java/cz/muni/fi/group05/room03/ui/form/ReservationForm.java:169-171 | for a new reservation, which has no id yet, the other guests on a night are all the guests of that night |
| Menus.Menu.constructor | src/main/java/cz/muni/fi/group05/room03/ui/Menu.java:18-23 | the menu holds the items and their conditions, as many of each |
| Tables.Table.constructor | src/main/java/cz/muni/fi/group05/room03/ui/table/util/Table.java:14-19 | a new table has the columns and no rows |
| TableView.HiddenAll | src/main/java/cz/muni/fi/group05/room03/ui/table/util/TableUI.java:99-101 | hiding columns never adds a header and never hides the last visible one |

## Left out

- Swing rendering and wiring are not modelled: painting, fonts, layout, translated texts, the footer's label and the start-up of the application. Each event handler is a method, and the component it calls is passed in as a parameter instead of being fetched from the application's static accessors.
- The confirm buttons are enabled by the form predicate on every field change. The model evaluates the predicate when the button is pressed instead: an incompletely filled form returns its report.
- Dialogs are parameters: a yes/no answer, the chosen option, or the position of the chosen room among those offered.
- `LocalDate.now()` becomes a `today` parameter, and `LocalDate` becomes an integer day number.
- The database is modelled as the in-memory sequences of `Store.HotelStore`. The SQL text, connections, `SQLException` other than a missing record, and the order `findAll` returns are left out. The rows are kept in insertion order.
- Prices and the bill are modelled over `real`. The `double` rounding and the `%.2f` formatting of the price dialogs are left out.
- The footer's statistics (`calculate`) are left out. So are the sorting of columns on show, the regular-expression row filter, the double-click action, the view-to-model index conversion of a sorted table, and the date renderer.
- The domain tables (reservations, guests, rooms) keep typed rows, one datatype value per row, not the generic `Tables.Table` of cells. The generic table, with its column type checks, is modelled on its own.
- `Message.createPanel` is modelled up to the grid of cells. Placing the cells in a panel and showing it are left out.
- Text.UpperCase: upper-cases only the ASCII letters a–z and keeps every other character. Java's `toUpperCase` follows the default locale and Unicode's case mappings, which change other letters too and can change the length ("ß" becomes "SS").
- Strings are sequences of characters, and their lengths count characters. Java's `String.length()` counts UTF-16 code units, so a character outside the Basic Multilingual Plane counts twice in Java and once in the model.
- GuestRules.GetFilledInfo: its 1000-character limit on the information field counts characters, not the UTF-16 code units Java counts.
- ReservationRules.GetFilledInfo: its 1000-character limit on the information field counts characters, not the UTF-16 code units Java counts.
- TableView.TruncatedString: cuts after 20 characters, while Java cuts after 20 UTF-16 code units and can split a surrogate pair.
- The short `Reservation` and `Guest` constructors are the long ones called with no id.
- `FieldInteger.hasData()` always holds, so the reservation form's missing-people problem can never be reported. The model has no such problem.
- HotelUi.RoomTable.CheckOut: requires the stored guests to be keyed, with every guest having an id and no two sharing one. The GUEST table's primary key guarantees this.
- HotelUi.RoomTable.CheckOut: vacates the selected rooms in the order of the selected positions, while the source loops over a `HashMap`'s keys. Each room is set vacant either way.
- HotelUi.GuestForm.AddNext: requires the form to hold a reservation id. Every way of opening the form (the check-in action and the guest edit action) sets one.
- HotelUi.ReservationForm.ConfirmAction: promises the reservation table's invariant (every row shows a stored reservation, one row each) only for a new reservation, a refusal, or an edit whose own row was the selected one. Otherwise the source itself leaves the old row next to the new one.
- HotelUi.ReservationTable.CreateReservation: promises the same invariant only when no row already shows the reservation, for the same reason.
- HotelUi.GuestTable.AssignRoomAction: promises the bed bound and the truthful statuses only for a selection of stored guests with distinct ids. The guest table's rows show the stored guests and a table selection never repeats a row, so this is every selection the user can make; the model's guest table keeps no such invariant of its own.
- HotelUi.GuestTable.AssignRoomAction: models the corrected order of the status updates (see Findings). `AllocationRules.AssignAsWrittenCanVacateTarget` models the order as written.
- TableView.TableUI.ShowPersonalizedInfo: models the corrected line text, with the values sanitized (see Findings). `TableView.InfoTextCanBreakDialog` models the text as written.
- HotelUi.GuestForm.CancelAction: is the corrected cancel button (see Findings). `HotelUi.GuestForm.CancelActionAsWritten` models the button as written.

## Findings

| source | as written | input that shows it | evidently intended | confidence | as-written member | corrected member |
|---|---|---|---|---|---|---|
| src/main/java/cz/muni/fi/group05/room03/ui/table/GuestTable.java:75-77 | the chosen room is marked occupied before the rooms the move empties are marked vacant | two guests of reservation 1 in room A (four beds), both assigned to room A: A is offered, marked occupied, then vacated because both of its guests are moving | the target ends occupied and every emptied room vacant | not executed | AllocationRules.AssignAsWrittenCanVacateTarget | AllocationRules.FixedAssignKeepsStatusTruthful |
| src/main/java/cz/muni/fi/group05/room03/ui/table/util/TableUI.java:134-144 | a value is put into the dialog text as it is, although the dialog splits the text at newlines and tabs and refuses an uneven grid | a reservation whose note is "a" newline "b": its line splits into a row of two cells and a row of one, and the dialog throws | every non-empty value shows as one row of two cells | not executed | TableView.InfoTextCanBreakDialog | TableView.SafeInfoTextAlwaysShows |
| src/main/java/cz/muni/fi/group05/room03/ui/form/GuestForm.java:82-89 | the cancel button ends the edit mode even when the user declines to leave the form | editing a guest, press cancel and answer no: the switch is declined and the form stays shown, but it is no longer editing, so the next confirm takes the check-in counting branch instead of saving the edit | the edit mode ends only when the form is left | not executed | HotelUi.GuestForm.CancelActionAsWritten, HotelUi.DeclinedCancelKeepsGuestForm | HotelUi.GuestForm.CancelAction |
