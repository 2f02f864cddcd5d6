# ABA clinic backend: a Dafny model of its rules

This project models the rules at the centre of a Django backend for an applied
behaviour analysis (ABA) clinic, and proves properties of them. It covers:

- therapy sessions: the session timer, submitting a session, and starting a
  session from an appointment;
- manual time-tracker entries and their summary;
- appointments, which the scheduler copies into therapy sessions (a signal and
  a management command);
- the workflow of treatment plans and their goals;
- one-to-one chat rooms;
- user accounts: registration, generated staff ids, permissions, one-time
  passwords (OTPs) and password changes;
- the non-ASCII text sanitiser.

There is one Dafny module per source file of the core. Two helper modules are
shared: `Wrappers` (Option and Result) and `Text` (decimal strings, padding,
prefixes). `Calendar` holds the date orderings.

Each database table is a `seq` field of a class, and a row's id is its
position. Appointments are the exception: their ids start at 1, so an
appointment's id is its position plus one. A view that writes to a table is a
method with a `modifies` clause. Its `ensures` gives the new table in terms of
the old one and the HTTP status it returns. Pure functions state the rules, and
lemmas about those functions carry the properties.

Timestamps are whole seconds. Time-tracker durations are exact minutes,
written as `real`. The request body and the session's user are parameters.

Where the code and the design description disagree, the model follows the
code:

- There is no note gate. Stopping the timer sets the session to completed at
  once (session/views.py:128), and submitting sets it to completed without
  checking notes (session/views.py:276).
- Submitting a session is allowed only to the RBT or BCBA assigned to it.
  Administrators are refused (`SessionViews.CanSubmit`).
- Once an appointment has been created, the scheduler's signal has already
  inserted its "scheduled" copy. Starting a session from that appointment
  therefore returns the copy with 200 and starts no timer
  (`SessionViews.SignalPreemptsStart`).

## Model

| member | source | states |
|---|---|---|
| ApiModels.DefaultUserStatusIsChoice | api/models.py:36-45 | The default user status "Active" is one of the three status choices. |
| ApiModels.FormatStaffId | api/models.py:120 | A generated staff id starts with "STAFF" and has at least four characters after it. |
| ApiModels.StaffIdRoundTrip | api/models.py:110-120 | Removing "STAFF" from a generated id and reading the rest as a decimal number gives back the number it was made from. |
| ApiModels.StaffIdInjective | api/models.py:120 | Two different numbers never give the same staff id. |
| ApiModels.LastStaffId | api/models.py:107 | The staff id of the user with the highest id among those whose staff id is not NULL; None exactly when nobody has one. |
| ApiModels.NextStaffNumber | api/models.py:109-117 | The previous number plus one when the last staff id parses; 1 when there is none, it is empty, or it fails to parse. Never 0. |
| ApiModels.AssignStaffId | api/models.py:103-122 | `save` keeps a non-empty staff id unchanged. A missing or empty one becomes "STAFF" plus the next number. |
| ApiModels.NextAfterGenerated | api/models.py:107-120 | When the last staff id was generated from n, the next user saved gets the id for n + 1. |
| ApiModels.ConsecutiveSaves | api/models.py:103-122 | Two new users saved one after the other get consecutive staff numbers. |
| ApiModels.SavedAgainUnchanged | api/models.py:103-105 | A saved user always has a non-empty staff id, so saving it again generates nothing. |
| ApiModels.UserStore.constructor | api/models.py:26 | The user table starts empty. |
| ApiModels.UserStore.Save | api/models.py:103-122 | The row is stored under its id, with the staff id `AssignStaffId` gives it, and ids stay equal to positions. |
| ApiModels.SaveOtp | api/models.py:146-150 | An OTP saved without an expiry expires 300 seconds after it was created. A given expiry is kept. |
| ApiModels.FreshOtpWindow | api/models.py:152-154 | A fresh OTP is valid exactly until 300 seconds after saving, and that last second is included. |
| ApiSerializers.ValidateUsername | api/serializers.py:46-54 | A username that passes is returned unchanged. |
| ApiSerializers.UsernameRule | api/serializers.py:46-54 | Without a trailing newline, a username passes exactly when it is non-empty, ASCII letters and digits only, and not taken. A taken name always fails with the "already exists" message. |
| ApiSerializers.TrailingNewlinePasses | api/serializers.py:50-52 | Python's `$` matches before a final newline, so "ann\n" passes the pattern. |
| ApiSerializers.ValidateUsernameForUpdate | api/serializers.py:197-201 | On update, a username passes exactly when no other user has it. |
| ApiSerializers.ValidateEmail | api/serializers.py:56-59 | An email passes exactly when no user has it. |
| ApiSerializers.ValidatePhone | api/serializers.py:66-73 | A missing or empty phone number passes; a phone number that passes is returned unchanged. |
| ApiSerializers.AcceptedPhoneShape | api/serializers.py:66-73 | An accepted non-empty phone number with no trailing newline has 10 to 16 characters: all digits, except for an optional leading '+'. |
| ApiSerializers.DigitsAccepted | api/serializers.py:66-73 | Any 10 to 15 digits, with or without a leading '+', are accepted. |
| ApiSerializers.ResolveSupervisor | api/serializers.py:17-19 | No supervisor key gives no supervisor. A resolved supervisor always has the role Admin or Superadmin. |
| ApiSerializers.ValidateSupervisor | api/serializers.py:61-64 | A supervisor passes exactly when absent or when their role is Admin or Superadmin. |
| ApiSerializers.ResolvedSupervisorPasses | api/serializers.py:17-64 | Whatever the field's queryset resolves always passes the validator. |
| ApiSerializers.FirstActive | api/serializers.py:94-97 | The lowest-id active user with the role, or None when there is none. |
| ApiSerializers.FirstActiveSkips | api/serializers.py:94-97 | Adding a user without the role does not change the first active holder of the role. |
| ApiSerializers.ChosenSupervisorCases | api/serializers.py:86-113 | A supplied supervisor is kept. Without one: the creator when they hold the required role (Admin for RBT, BCBA and Clients/Parent; Superadmin for Admin), otherwise the first active holder of that role, or none. Other roles get none. |
| ApiSerializers.Register | api/serializers.py:75-116 | Registering appends exactly one user: staff flag set, hashed password stored, supervisor as chosen, staff id generated. Status, `is_active` and the extra permissions are not serializer fields (api/serializers.py:26-44), so they are the model defaults "Active", active and none (api/models.py:36-45). |
| ApiSerializers.UpdatedUserMeaning | api/serializers.py:203-221 | An update assigns every supplied column and keeps every other column. A missing or empty password leaves the password alone; a non-empty one stores its hash. |
| ApiSerializers.ClearedStaffIdRegenerated | api/serializers.py:203-221 | Clearing the staff id in an update makes `save` generate a new one. |
| ApiSerializers.UpdateUser | api/serializers.py:203-221 | The user's row is replaced by the updated user and no other row changes. |
| ApiSerializers.ValidateCertificate | api/serializers.py:139-145 | A certificate passes exactly when it is for life or has an expiration date. |
| ApiSerializers.ValidateStatus | api/serializers.py:191-195 | A status passes exactly when it is one of Active, Pending, Suspended. |
| ApiSerializers.StatusChoicesExact | api/serializers.py:264-268 | The three choices pass. The comparison is case-sensitive, so "active" fails, and so does the empty string. |
| ApiSerializers.ValidateLogin | api/serializers.py:241-256 | Login yields tokens exactly when the user is authenticated and their status is exactly "Active". The claims carry id, username and role name. |
| ApiSerializers.InactiveStatusRefused | api/serializers.py:247-248 | Pending and Suspended users are refused. |
| ApiSerializers.ValidateNewPassword | api/serializers.py:281-284 | A new password passes exactly when it equals its confirmation. |
| ApiViews.PermissionIdsFor | api/views.py:151 | Exactly the ids of the stored permissions whose codename is in the list. |
| ApiViews.UnknownCodesDropped | api/views.py:151-152 | A list of codenames that are all unknown assigns no permissions at all. |
| ApiViews.CodesAsSet | api/views.py:151 | Order and repetition in the list of codes do not matter. |
| ApiViews.AssignPermissions | api/views.py:136-155 | No role gives 500 and a role other than "Superadmin" gives 403. An unknown user gives 404. Otherwise 200, and the user's extra permissions are replaced by exactly the matching set. |
| ApiViews.AssignTwiceSameAsOnce | api/views.py:151-152 | Assigning the same codes twice leaves the user as one assignment did. |
| ApiViews.PermissionMap | api/views.py:168-177 | The listing has one key per role name. |
| ApiViews.RoleIndices | api/views.py:175 | The positions of a role's permissions in the permission table, strictly increasing, each one a permission of the role. |
| ApiViews.RoleIndicesComplete | api/views.py:175 | No permission of the role is missing from those positions. |
| ApiViews.EntriesOf | api/views.py:175-176 | A role's entries are its permissions' code and label, one per permission, in table order. |
| ApiViews.EntriesOfMeaning | api/views.py:175-176 | Every entry is one of the role's permissions, and every permission of the role has its entry. |
| ApiViews.PermissionMapLast | api/views.py:174-176 | Each name maps to the entries of the last role with that name, because assigning the key again overwrites it. |
| ApiViews.PermissionMapFrom | api/views.py:174-176 | Each key comes from some listed role and maps to that role's entries. |
| ApiViews.UniqueNamesListed | api/views.py:174-176 | With unique role names (api/models.py:18), every listed role maps to its own entries. |
| ApiViews.SuperadminSeesOwnRoleAsWritten | api/views.py:167 | As written, a user whose role is "Superadmin" sees only their own role, not the Admin role. |
| ApiViews.ListPermissionsMeaning | api/views.py:160-178 | No role gives 403. The role "Superadmin" sees every role, each name with its role's permissions. Any other role sees exactly the roles with its own id, with their permissions. |
| ApiViews.ListingsAgreeOtherwise | api/views.py:167-171 | The corrected and the as-written listings agree for every role that is not named "Superadmin" or "superadmin". |
| ApiViews.NewestOtp | api/views.py:231 | The newest OTP row for the user with that code, or None when there is no such row. |
| ApiViews.OtpStore.constructor | api/models.py:140 | The OTP table starts empty. |
| ApiViews.OtpStore.VerifyOtp | api/views.py:222-239 | No user with the email gives 400 and more than one gives 500. Success is 200 and happens exactly when the newest matching OTP is still valid; it then deletes that OTP alone. Every failure leaves the table unchanged. |
| ApiViews.FreshOtpVerifies | api/views.py:229-237 | An OTP just saved is the one verification picks, and it verifies exactly within its 300-second window. |
| ApiViews.PasswordUpdateCheck | api/views.py:264-289 | The check passes exactly when all three fields are given, the old password is correct, new equals confirm and the validators report nothing. The result is the new password. |
| ApiViews.PasswordCheckOrder | api/views.py:270-283 | The checks fail in order: missing fields, then a wrong old password, then a mismatch, then the validator's messages. |
| ApiViews.UpdatePassword | api/views.py:261-289 | 200 and a new password when the check passes. Otherwise 400 with the first failure's message and the table unchanged. |
| ApiViews.SetNewPassword | api/views.py:245-258 | Resetting a password: an unknown user gives 404, and success sets only that user's password. |
| CleanUnicode.CleanRow | scheduler/management/commands/clean_unicode.py:18-28 | Cleaning a user keeps the set of listed fields and leaves every other field as it was. |
| CleanUnicode.CleanAll | scheduler/management/commands/clean_unicode.py:14 | One cleaned row per user. |
| CleanUnicode.CleanRowAscii | scheduler/management/commands/clean_unicode.py:25 | Every listed text field is all ASCII after cleaning. |
| CleanUnicode.CleanRowIdempotent | scheduler/management/commands/clean_unicode.py:25-28 | Cleaning twice is cleaning once, and a cleaned user needs no further cleaning. |
| CleanUnicode.SecondRunCountsNobody | scheduler/management/commands/clean_unicode.py:14-32 | After one run, a second run updates no users and changes nothing. |
| CleanUnicode.AsciiRowUntouched | scheduler/management/commands/clean_unicode.py:23-28 | A user whose listed fields are all ASCII is neither changed nor saved. |
| CleanUnicode.NothingToClean | scheduler/management/commands/clean_unicode.py:26-30 | A user with no changed field is left exactly as it was. |
| CleanUnicode.CleanField | scheduler/management/commands/clean_unicode.py:22-28 | One pass of the field loop sets the visited field to its cleaned value. Every other field and the set of fields stay as they were. |
| CleanUnicode.CleanedUpToMeaning | scheduler/management/commands/clean_unicode.py:21-28 | After the loop has visited the first `j` listed fields, exactly the fields listed before position `j` are cleaned. The rest are untouched. |
| CleanUnicode.CleanUser | scheduler/management/commands/clean_unicode.py:15-31 | The loop over one user's fields yields the cleaned row. Its `updated` flag is set exactly when some field changed. |
| CleanUnicode.Handle | scheduler/management/commands/clean_unicode.py:9-37 | In place over the user array. It aborts exactly when some save is refused because the cleaned username is taken; the users before that one stay cleaned and saved, the rest untouched. Otherwise every user is replaced by its cleaned row, and the counter equals the number of users that needed cleaning. |
| CleanUnicode.FirstRefusalFrom | scheduler/management/commands/clean_unicode.py:14-31 | The first refused save at a position, when there is one, is a save that the unique username index refuses. |
| CleanUnicode.NothingRefusedBefore | scheduler/management/commands/clean_unicode.py:14-31 | No save before the first refused one is refused. |
| CleanUnicode.RefusalStep | scheduler/management/commands/clean_unicode.py:14-31 | The table the loop sees at user `i` is the first `i` users cleaned and the rest as they were, and whether that user's save is refused. |
| CleanUnicode.DistinctAsciiNamesComplete | scheduler/management/commands/clean_unicode.py:25-31 | With pairwise distinct ASCII usernames no save is refused, so the run completes. |
| CleanUnicode.MergedUsernamesAbort | scheduler/management/commands/clean_unicode.py:25-31 | Two distinct usernames that clean to the same name: the first is saved and the second's save is refused. |
| CleanUnicode.ZoUsersAbort | scheduler/management/commands/clean_unicode.py:25-31 | "Zoë" and "Zoé" both become "Zo?", so a table with both users never finishes cleaning. |
| MessagingViews.RoomNameSymmetric | messaging/views.py:11-12 | The room name does not depend on which user starts the chat. |
| MessagingViews.RoomNameInjective | messaging/views.py:11-12 | Two pairs of users share a room name only when they are the same unordered pair. |
| MessagingViews.FindRoom | messaging/views.py:31 | The position of the room with that name, or None when no room has it. |
| MessagingViews.RoomMessages | messaging/models.py:20-26 | The messages of one room, in sending order. |
| MessagingViews.SendAppendsToRoom | messaging/views.py:60-64 | A new message is appended to its own room's messages and leaves the other rooms' messages alone. |
| MessagingViews.OneRoomPerPair | messaging/models.py:8 | Because names are unique, two rooms for the same pair, in either order, are the same room. |
| MessagingViews.ChatStore.constructor | messaging/models.py:4-22 | No rooms and no messages. |
| MessagingViews.ChatStore.StartPrivateChat | messaging/views.py:17-36 | A missing or zero user id gives 400 and an unknown user gives 404. On 200 the pair's room is fetched or created and holds exactly the two users; earlier participants are replaced. No message changes, and pair rooms stay pair rooms. |
| MessagingViews.ChatStore.SendMessage | messaging/views.py:41-67 | Empty content (checked first) gives 400, an unknown room 404, a non-participant 403. Otherwise 201 and exactly one message from the requester is appended. |
| MessagingViews.SendersArePair | messaging/views.py:57-64 | Every message in a pair room was sent by one of the two users its name encodes. |
| SchedulerModels.SameHoursOtherDayClash | scheduler/models.py:69 | The appointment key has no date, so a staff member cannot hold the same hours on two different days. |
| SchedulerModels.TherapyFromScheduleDefaults | scheduler/models.py:120-131 | The copy has the appointment's client, staff, date and times, status "scheduled" (the session default), location "Scheduled Location", service "ABA", and the notes or "". |
| SchedulerModels.HasSlotMeans | scheduler/models.py:111-117 | The existence check holds exactly when some session has all five columns. |
| SchedulerModels.InsertIfAbsent | scheduler/models.py:110-131 | Skips when the five columns exist. Otherwise it appends exactly one copy, unless the session table's own uniqueness constraint refuses it. The constraint keeps holding. |
| SchedulerModels.OnScheduleSaved | scheduler/models.py:100-135 | Nothing happens on an update. On a creation, at most one copy is appended, exactly when absent and accepted; failures are swallowed. |
| SchedulerModels.SignalLeavesSlot | scheduler/models.py:105-131 | After a new appointment's signal, a session with its five columns exists unless the constraint refused the insert. |
| SchedulerModels.ScheduleTable.constructor | scheduler/models.py:31 | No appointments. |
| SchedulerModels.ScheduleTable.Lookup | scheduler/models.py:31 | The appointment with id i is the one at position i - 1; ids outside 1..count find nothing. |
| SchedulerModels.ScheduleTable.Create | scheduler/models.py:67-135 | Creating an appointment fails only on the appointment table's own uniqueness constraint. When stored, the signal runs with `created` set and its outcome never undoes the appointment. |
| SchedulerModels.ScheduleTable.Update | scheduler/models.py:105 | Saving an existing appointment replaces its row unless that would break the appointment table's uniqueness. The therapy table is not touched: the signal sees `created` false. |
| SchedulerSerializers.Age | scheduler/serializers.py:14-19 | Age is None exactly when there is no date of birth. |
| SchedulerSerializers.AgeCountsBirthdays | scheduler/serializers.py:17-18 | The age is the number of birthdays reached: the a-th has come by today and the (a+1)-th has not. |
| SchedulerSerializers.AgeNonNegative | scheduler/serializers.py:17-18 | The age is at least 0 when the birth date is not after today. |
| SchedulerSerializers.LastSession | scheduler/serializers.py:21-41 | The latest appointment by (date, start) among the client's dated before today. None exactly when there is none. |
| SchedulerSerializers.UpcomingSession | scheduler/serializers.py:43-62 | The earliest appointment by (date, start) among the client's dated today or later. None exactly when there is none. |
| SchedulerSerializers.LastBeforeUpcoming | scheduler/serializers.py:21-62 | The last and the upcoming appointment are never the same one, and the upcoming one comes later. |
| SchedulerSerializers.SanitizeAscii | scheduler/serializers.py:70 | The sanitised text is all ASCII. |
| SchedulerSerializers.SanitizeKeepsAscii | scheduler/serializers.py:70 | ASCII text is unchanged. |
| SchedulerSerializers.SanitizeNoLonger | scheduler/serializers.py:70 | The sanitised text is no longer than the input. |
| SchedulerSerializers.SanitizeIdempotent | scheduler/serializers.py:70 | Sanitising twice is sanitising once, and sanitising changes a text exactly when it is not all ASCII. |
| SchedulerSerializers.SanitizeAsciiPrefix | scheduler/serializers.py:70 | An ASCII prefix is copied unchanged, and the text after it is sanitised on its own. |
| SchedulerSerializers.RunCollapses | scheduler/serializers.py:70 | A maximal run of non-ASCII characters becomes a single '?'. |
| SchedulerSerializers.CleanFields | scheduler/serializers.py:67-70 | The representation keeps its number of fields. |
| SchedulerSerializers.CleanFieldsMeaning | scheduler/serializers.py:64-71 | Keys and value kinds are kept. Every string value becomes ASCII, non-string values are untouched, and a second pass changes nothing. |
| SchedulerSerializers.CleanRepresentation | scheduler/serializers.py:104-112 | The loop that rewrites the fields one by one yields the cleaned representation. |
| SessionModels.ParseStatus | session/models.py:10-15 | A stored status code reads back as the status with that code; a code no status has reads as none. |
| SessionModels.ParseStatusCode | session/models.py:10-15 | Every status's code reads back as that status. |
| SessionModels.InsertRow | session/models.py:45 | An insert is refused exactly when it would give a staff member two sessions with the same date and times. Otherwise it appends the row, and the constraint keeps holding. |
| SessionModels.FindSlot | session/views.py:546-553 | The first session with the five columns, or None when there is none. |
| SessionModels.CurrentDuration | session/models.py:59-63 | While running with a start, the time since that start, without the accumulated total; otherwise the accumulated total. |
| SessionModels.IntervalMinutes | session/models.py:219-224 | 0 unless both instants are set; otherwise the minutes between them. Both apps' `TimeTracker.duration` (this one and scheduler/models.py:91-95) are this function. |
| SessionModels.HoursMinutesSplit | session/models.py:227-232 | The displayed minutes are below 60, and hours * 60 + minutes is the whole number of minutes. |
| SessionModels.HoursMinutesReadBack | session/models.py:227-232 | Below 100 hours the display is "HH:MM", and reading its two fields back gives the hours and the minutes. |
| SessionModels.Clean | session/models.py:234-238 | An entry is refused exactly when both instants are set and the end is not after the start. An accepted entry is unchanged. |
| SessionModels.CleanEntryPositive | session/models.py:234-238 | An accepted entry with both instants has a positive duration. |
| SessionModels.SaveNewEntry | session/models.py:240-242 | Saving stores the entry exactly when `clean` accepts it, with the "End time must be after start time" error otherwise. |
| SessionModels.SaveEntryAt | session/models.py:240-242 | Saving an existing entry replaces it exactly when `clean` accepts the new version. |
| SessionModels.SavePreservesPositive | session/models.py:240-242 | Because `save` runs `clean`, every stored entry with both instants keeps a positive duration. |
| SessionModels.SessionTable.constructor | session/models.py:20-52 | No sessions and no timers. |
| SessionModels.SessionTable.Insert | session/models.py:45 | A session is stored exactly when it clashes with no existing one, under the next id; timers do not change. |
| SessionSerializers.ValidateTimeTracker | session/serializers.py:88-96 | Rejected exactly when both times are present and the end is not after the start, with that message. Otherwise the data come back unchanged. |
| SessionSerializers.ValidateSession | session/serializers.py:144-152 | Rejected exactly when both times are present and start >= end. Otherwise unchanged. |
| SessionSerializers.MissingTimePassesThrough | session/serializers.py:93 | With a time missing, both validators return the data unchanged. |
| SessionSerializers.CreateTimeTracker | session/serializers.py:203-206 | The stored entry's author is the requesting user, and a missing time type is stored as "direct" (session/models.py:206). It is stored exactly when the interval is good. |
| SessionSerializers.SerializerAgreesWithClean | session/serializers.py:193-201 | The create serializer's check and the model's `clean` accept the same entries. |
| SessionSerializers.CreateKeepsPositive | session/serializers.py:186-206 | Creating through the serializer keeps every stored entry's duration positive. |
| SessionSerializers.ParseTimerAction | session/serializers.py:154-161 | Only "start" and "stop" are accepted, each as its own action. |
| SessionSerializers.ParseSubmitType | session/serializers.py:163-166 | Only "draft" and "submit" are accepted. |
| SessionSerializers.ValidateSubmitRequest | session/serializers.py:163-173 | Valid exactly when the session exists and the submit type is one of the two choices. |
| SessionViews.PermissionLadder | session/views.py:136-145 | With no role, every check fails. Admin and Superadmin pass the timer and manage checks but not submit. The client passes the timer check exactly for their own session. Submit is narrower than manage, and manage narrower than the timer check. |
| SessionViews.StartStarts | session/views.py:115-120 | Starting a stopped timer: it runs from now, the total is kept, and the session becomes in progress whatever it was. |
| SessionViews.StopAccumulates | session/views.py:121-129 | Stopping a running timer: it ends now and stops, the run's length is added when it had a start, and the session becomes completed. |
| SessionViews.RepeatedActionIsNoOp | session/views.py:116-122 | "start" on a running timer and "stop" on a stopped one change neither the timer nor the status. |
| SessionViews.StepKeepsConsistent | session/views.py:112-129 | A timer that is running always has a start, and every step keeps it so. |
| SessionViews.RunningShowsCurrentRunOnly | session/models.py:59-63 | After a start, the current duration shows only the time since that start. |
| SessionViews.RunsAccumulate | session/views.py:115-129 | After a series of start/stop runs, the total is the old total plus the runs' lengths, and the session is completed. |
| SessionViews.PostTimer | session/views.py:103-134 | An unknown session gives 404, no permission 403, and an unknown action 400, with nothing changed. On 200 the timer and the session's status are exactly what one step gives. |
| SessionViews.SubmitSession | session/views.py:261-291 | An invalid request gives 400 and anyone but the assigned RBT or BCBA gets 403. "submit" sets completed and "draft" leaves the status. |
| SessionViews.SessionFromScheduleShape | session/views.py:577-594 | The new session has the appointment's five columns, is in progress, and defaults to "Not specified" and "ABA". Its timer runs from now with nothing accumulated. |
| SessionViews.StartFromSchedule | session/views.py:489-607 | The checks are 400, then 404, then 403. An existing session with the five columns is returned with 200 and nothing created. Otherwise 201 creates exactly one in-progress session and its running timer. The reply is 500, with nothing created, exactly when the insert clashes with an existing session. |
| SessionViews.SignalPreemptsStart | scheduler/models.py:105-131 | Once a new appointment's signal has inserted its copy, that scheduled copy is what starting a session from the appointment finds. |
| SessionViews.GeneratorFailuresNeverSaved | ocean/utils.py:205 | Neither failure text of the notes generator is ever saved, whatever `auto_save` says. |
| SessionViews.DefaultsDiffer | session/views.py:1016 | Without the flag, save-and-generate stores a good text and generate-only does not. |
| SessionViews.ApplyGeneratedNotes | session/views.py:1008-1040 | Both note endpoints: 404, then 403 unless the caller may manage the session. The reply is 500, with nothing saved, exactly when collecting the session data fails, the generator module is missing or generation raises. Otherwise 200, and the notes are stored exactly when `auto_save` holds and the text does not start with "AI error"; the reply reports which. |
| SessionViews.SaveAndGenerateNotes | session/views.py:612-837 | Save-and-generate: its collection reads only existing columns, but it reads the staff's `username`, inside the `try` (line 753). So a permitted caller on a session whose staff is NULL (session/models.py:24-30) gets 500 with nothing saved. Otherwise 500 comes only from the generator. 200 exactly when permitted, the session has staff and generation returns text. The flag defaults to saving. |
| SessionViews.GenerateNotesAsWritten | session/views.py:842-1040 | Generate-only as written: in auto mode a session with any activity, goal, event, strategy or incident row gives 500 and nothing is saved. In either mode a session whose staff is NULL gives 500 too, because the staff's `username` is read on `None` outside any `try` (lines 882 and 915). The reply is 200 exactly when permitted, the session has staff, the request is manual or there are no such rows, and generation returns text. |
| SessionViews.GenerateNotes | session/views.py:842-1040 | Generate-only with the collection reading the columns the models define. A session whose staff is NULL still gives 500 with nothing saved (lines 882 and 915). 200 exactly when permitted, the session has staff and generation returns text. The flag defaults to not saving. |
| SessionViews.SummaryQuery | session/views.py:437-460 | Exactly the entries the user may see (own sessions or own entries for staff, own sessions for clients, all otherwise) within the date range. |
| SessionViews.BucketsDescribeEntries | session/views.py:465-476 | One bucket per type present, with distinct types. Each holds its type's count (at least 1), minutes and label, and no bucket exists for an absent type. |
| SessionViews.BucketTotals | session/views.py:461-476 | The bucket counts add up to the number of entries and the bucket minutes to the total minutes. |
| SessionViews.TimeTrackerSummary | session/views.py:437-484 | The report's total is the number of selected entries, its minutes their sum, its buckets the grouping, and the display "HH:MM" of the total. |
| SyncSessions.CountsAddUp | scheduler/management/commands/sync_sessions.py:15-51 | created + skipped is the number of appointments when the run completes, and never more. |
| SyncSessions.OnlyAppends | scheduler/management/commands/sync_sessions.py:28-41 | Existing sessions are never modified. The table grows by exactly one row per creation, and each new row copies a handled appointment. |
| SyncSessions.SyncKeepsUnique | scheduler/management/commands/sync_sessions.py:30-40 | The session table's uniqueness constraint holds after the command. |
| SyncSessions.SyncCoversAll | scheduler/management/commands/sync_sessions.py:18-41 | After a completed run, every appointment has a session with its five columns. |
| SyncSessions.AllPresentSkipsAll | scheduler/management/commands/sync_sessions.py:20-50 | When every slot exists already, every appointment is skipped and nothing changes. |
| SyncSessions.SecondRunCreatesNothing | scheduler/management/commands/sync_sessions.py:20-41 | A second run creates nothing and leaves the table as it is. |
| SyncSessions.DuplicateCreatesOnce | scheduler/management/commands/sync_sessions.py:18-51 | Two appointments with the same five columns give one creation and one skip. |
| SyncSessions.AbortedStays | scheduler/management/commands/sync_sessions.py:18-41 | After a rejected insert the remaining appointments are not looked at. |
| SyncSessions.Handle | scheduler/management/commands/sync_sessions.py:9-56 | The loop leaves exactly the table and the counters of the specification run. |
| Text.NatToStringValue | api/models.py:120 | A number's decimal digits read back as that number. |
| Text.FormatIntValue | api/models.py:120 | Zero-padding keeps the digits' value. |
| TreatmentPlanModels.ReplaceGoalsMeaning | treatment_plan/serializers.py:59-64 | Replacing a plan's goals makes them exactly the supplied list and leaves every other plan's goals alone. |
| TreatmentPlanModels.DropGoalsMeaning | treatment_plan/serializers.py:61 | Deleting a plan's goals leaves it none and keeps every other plan's goals. |
| TreatmentPlanModels.RowsForMeaning | treatment_plan/serializers.py:63-64 | The rows created for a list of goals are exactly that list for the plan, and nothing for any other plan. |
| TreatmentPlanModels.RowsForPointAt | treatment_plan/models.py:59-98 | Goals created for an existing plan keep every goal pointing at an existing plan. |
| TreatmentPlanModels.PlanTable.constructor | treatment_plan/models.py:25 | No plans, goals or approvals. |
| TreatmentPlanSerializers.NoGoalsForNewPlan | treatment_plan/serializers.py:43 | A plan that has just been created has no goals yet. |
| TreatmentPlanSerializers.AppendGoals | treatment_plan/serializers.py:45-46 | The loop appends one goal row per supplied goal, in order. |
| TreatmentPlanSerializers.CreatePlan | treatment_plan/serializers.py:109-116 | A client id already in use is refused and nothing changes. Otherwise a draft plan (priority by default medium) is appended with exactly the supplied goals, or none. |
| TreatmentPlanSerializers.CreatedPlanGoals | treatment_plan/serializers.py:41-48 | The new plan's goals are the supplied list, with no goals when absent. It starts as a draft with no timestamps. |
| TreatmentPlanSerializers.SelfApprovalAsWritten | treatment_plan/serializers.py:32-36 | As written, a non-staff BCBA can set their own plan to "approved" by an update, bypassing both the submit and the approve steps. |
| TreatmentPlanSerializers.AssignedMeaning | treatment_plan/serializers.py:53-56 | The corrected update assigns every supplied field and keeps every other one. The status and the timestamps are kept. |
| TreatmentPlanSerializers.AssignedAgreesWithoutStatus | treatment_plan/serializers.py:53-56 | Without a status in the request, the corrected and the as-written update agree. |
| TreatmentPlanSerializers.MergeInfo | treatment_plan/serializers.py:54-55 | The setattr loop gives the old fields overridden by the supplied ones. |
| TreatmentPlanSerializers.KeepsUniqueIds | treatment_plan/models.py:25 | An update whose client id no other plan holds keeps client ids unique. |
| TreatmentPlanSerializers.KeepsApprovals | treatment_plan/models.py:103 | An update that keeps the status keeps the approval records consistent. |
| TreatmentPlanSerializers.UpdatePlan | treatment_plan/serializers.py:50-66 | A client id clash is refused and nothing changes. Otherwise the plan is replaced by the corrected update. With goals present, even an empty list, the goals become exactly that list; without them the goals are untouched. |
| TreatmentPlanSerializers.UpdateGoalsMeaning | treatment_plan/serializers.py:38-39 | After an update the goal count is the length of the supplied list, and other plans' goals are untouched. |
| TreatmentPlanViews.RankIsCodeOrder | treatment_plan/views.py:84 | Ordering goals by their priority code is alphabetical: high, low, medium. |
| TreatmentPlanViews.SplitByPriority | treatment_plan/views.py:84 | Every list of goals is, as a multiset, the union of its three priority groups. |
| TreatmentPlanViews.OrderGoalsPermutation | treatment_plan/views.py:84 | Ordering the goals for the list is a permutation of them. |
| TreatmentPlanViews.OrderGoalsSorted | treatment_plan/views.py:84 | The ordered goals are sorted by priority code. |
| TreatmentPlanViews.OrderGoalsStable | treatment_plan/views.py:84 | Within one priority the ordered list keeps the stored (creation) order, the `created_at` tie-break. |
| TreatmentPlanViews.GoalList | treatment_plan/views.py:76-84 | An unknown plan gives 404. Without access the list is empty; with access it holds exactly the plan's goals, in the goal order (sorted by priority code, ties in creation order). |
| TreatmentPlanViews.GoalDetailScope | treatment_plan/views.py:101-109 | The goal detail endpoint sees the plan's goals with access and none without. |
| TreatmentPlanViews.ListAndDetailAgree | treatment_plan/views.py:76-109 | The list and the detail endpoint see the same goals. |
| TreatmentPlanViews.AttachGoal | treatment_plan/views.py:86-94 | An unknown plan gives 404 and no access gives the refusal code. Otherwise 201 and one goal row is appended; on any refusal no row changes. |
| TreatmentPlanViews.AddGoalAsWritten | treatment_plan/views.py:86-94 | As written the refusal names an exception `rest_framework.permissions` does not define, so no access gives 500, with nothing stored. |
| TreatmentPlanViews.AddGoal | treatment_plan/views.py:86-94 | An unknown plan gives 404 and no access gives 403. Otherwise 201 and one goal row is appended. |
| TreatmentPlanViews.AddGoalAppends | treatment_plan/views.py:94 | An added goal extends its plan's goals by one and touches no other plan. |
| TreatmentPlanViews.NextStatus | treatment_plan/views.py:124-161 | A transition always changes the status. |
| TreatmentPlanViews.DecidedIsFinal | treatment_plan/views.py:124-151 | Approved and rejected plans have no way out through these views. |
| TreatmentPlanViews.AtMostTwoSteps | treatment_plan/views.py:124-161 | No plan goes through more than two transitions. |
| TreatmentPlanViews.WorkflowOutcomes | treatment_plan/views.py:124-161 | A draft becomes approved or rejected after a submit and a decision, and cannot be decided before it is submitted. |
| TreatmentPlanViews.Submit | treatment_plan/views.py:113-137 | 404, then 403 unless staff or the plan's BCBA, then 400 unless draft. 200 sets submitted and the submit time; nothing else changes. |
| TreatmentPlanViews.Approve | treatment_plan/views.py:141-178 | 403 unless staff, then 404, then 400 unless submitted. 200 sets approved with its time, or rejected with the time kept. `approved` defaults to true. Exactly one approval record is added. |
| TreatmentPlanViews.VisiblePlans | treatment_plan/views.py:184-187 | Staff see every plan; others see only plans they may access. |
| TreatmentPlanViews.VisibleOwnPlans | treatment_plan/views.py:184-185 | A non-staff user sees exactly their own plans. |
| TreatmentPlanViews.CountsPartition | treatment_plan/views.py:189-197 | The four status counts, and the three priority counts, each add up to the number of plans. |
| TreatmentPlanViews.StatsAddUp | treatment_plan/views.py:182-200 | In the statistics, draft + submitted + approved + rejected = total, and likewise for the three priorities. |
| TreatmentPlanViews.SubmitShiftsCounts | treatment_plan/views.py:130 | A submit moves one plan from the draft count to the submitted count. |

## Left out

- The OpenAI calls (ocean/utils.py and session/utils.py) are foreign services. What the generator does is a parameter: a text, a missing module, or an exception. Only the notes generator's two failure texts are modelled. Which detail rows a session has is a count parameter of `GenerateNotesAsWritten`.
- The questionnaire payload of `save_session_data_and_generate_notes` (activity, goal, event, strategy, incident and checklist rows) is not modelled. Only its permission and auto-save tail is. The activity duration bounds are the predicate `SessionModels.ValidActivityMinutes`.
- The note-finalisation and prompt subsystem named in the URL routes is not part of the code, and is not part of this model.
- scheduler/views.py is not part of this model: it uses fields the scheduler's models do not define.
- Channels, websockets and broadcasts are left out (ocean/consumers.py, messaging/middleware.py).
- Concurrency, transactions and races on the timer are left out.
- These are left out as random or foreign: OTP generation (api/views.py:205), sending email, password hashing, Django's password validators, JWT blacklisting. The validators' messages and the hash are parameters.
- The Django admin, URL routing, settings, app configuration and the dashboard are left out.
- api/roles.py is not part of this model: no code path shown consults it.
- The `SendOTP` view is left out. It only looks a user up and stores a random code.
- Durations are exact `real` minutes: the float rounding of `total_seconds() / 60` and of `round(total / 60, 2)` is not modelled, and the report leaves out the hours figure.
- Text.ParseNat: staff numbers are read as plain decimal digits. Python's `int()` also accepts whitespace, signs and underscores.
- ApiSerializers.ValidatePhone: `\d` is ASCII digits only; Python also matches other Unicode decimal digits.
- ApiSerializers.ValidatePhone: the model field's `max_length=15` (api/models.py:89) runs first and rejects a '+' followed by 15 digits. The model has only `validate_phone`, so AcceptedPhoneShape and DigitsAccepted describe that method alone.
- ApiSerializers.UpdatedUser: the `plain_password` attribute set at api/serializers.py:218 is not a column of the user model, so it is not stored and is not modelled.
- ApiSerializers.ValidateSupervisor: a supervisor without a role makes the source raise an error (500). The model returns a validation failure instead.
- Query results keep the order of the table (positions). `.first()` without an ordering is taken as the lowest id.
- ApiViews.NewestOtp: among OTPs with the same creation time, the model takes the latest stored one. The database's choice among ties is unspecified.
- Flags such as `auto_save`, `approved` and `for_lifetime` are booleans. Python's truthiness of other JSON values is not modelled.
- The nested `SessionSerializer`'s fallback for a `UnicodeEncodeError` is left out (scheduler/serializers.py:113-121), and so are the `__str__` fallbacks.
- The `clean_unicode` command's `save()` side effects beyond the row (a staff id generated on save) are left out. Of the constraints a save can break, only the unique username is modelled; staff id and email are not unique.
- DRF's required-field and type validation is taken as given. `CreatePlan` requires a client id and a BCBA for that reason.
- `TreatmentPlanSerializer.create` is not modelled on its own. Plans are created only through the create serializer, which has the same body without the status field.
- The list views' filters (status, priority and search) are left out (treatment_plan/views.py:22-55, session/views.py:26-86, upcoming_sessions).
- MessagingViews.ChatStore.StartPrivateChat: the "pair rooms stay pair rooms" guarantee holds when only this view has touched rooms. A room that admin tools filled otherwise may hold other participants, and the view then replaces them.

## Findings

| source | as written | input that shows it | evidently intended | confidence | as-written member | corrected member |
|---|---|---|---|---|---|---|
| treatment_plan/serializers.py:32 | `status` is among the writable fields of the plan serializer; only timestamps are read-only (line 36). | A PUT with `status: "approved"` by the plan's own BCBA, user 7, who is not staff, on a draft plan. | The status changes only through the submit and approve views. | not executed | TreatmentPlanSerializers.SelfApprovalAsWritten | TreatmentPlanSerializers.UpdatePlan |
| session/views.py:935-995 | In auto mode, generate-only reads attributes the detail models do not define (session/models.py:101-178): an activity's `description` and `client_response`, a goal's `goal_name`, `target_behavior`, `trials_completed` and `successful_trials`, an event's `time` and `notes`, a strategy's `description` and `effectiveness_rating`, an incident's `time` and `action_taken`. The lookup raises outside any `try`. | A POST with no payload keys on a session with one activity row, by its own staff member. | The auto-mode collection reads the columns the models define, and the notes are generated and saved as requested. | not executed | SessionViews.GenerateNotesAsWritten | SessionViews.GenerateNotes |
| treatment_plan/views.py:92 | A refused goal create raises `permissions.PermissionDenied`. The module `rest_framework.permissions` defines no such name; the exception is `rest_framework.exceptions.PermissionDenied`. | A POST of a goal to the plan of BCBA 7 by user 8, who is not staff. | The create is refused with 403. | not executed | TreatmentPlanViews.AddGoalAsWritten | TreatmentPlanViews.AddGoal |
| api/views.py:167 | The all-roles branch compares the role name with "superadmin" in lower case; every other check uses "Superadmin". | A user whose role is named "Superadmin" lists permissions: only their own role comes back. | Superadmins see every role's permissions. | not executed | ApiViews.SuperadminSeesOwnRoleAsWritten | ApiViews.ListPermissionsMeaning |

Because the corrected update cannot move a plan back to "submitted", a
second approval can never run into the one-to-one approval record
(treatment_plan/models.py:103). `TreatmentPlanViews.Approve` therefore has no
error path for it.
