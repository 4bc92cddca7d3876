# WFH scheduler backend, modelled in Dafny

This project models the core of a work-from-home (WFH) scheduler backend.

- **Requests and schedule rows.** Staff file WFH requests. A request is for one day, or recurs weekly until an end date. Each request expands into one schedule row per WFH day.
- **Approval.** A manager approves or rejects a request. An ordinary approval first passes a per-day capacity check. The decision is then carried to the request's schedule rows.
- **Withdrawal.** A schedule row of any status can be withdrawn when it lies within two weeks of today. Withdrawal creates a single-day "WITHDRAWAL REQUEST" and has a schedule service re-point the row at it. The controller later reads the row's original request id back from the row's `reason_for_withdrawing` column.
  - Approving the withdrawal withdraws the original request, but only when that request is not recurring.
  - Rejecting the withdrawal sets the rows to REJECTED and hands the first row to a schedule service that gives it back to its original request.
- **Expiry.** A sweep expires requests that started more than 60 days ago. The endpoint then asks the rows' status update to write EXPIRED for each of them, which that update ignores.
- **Read-only views.**
  - a manager's day-by-day headcount summary (morning and afternoon);
  - the morning/afternoon presence of every team member on one day, as seen by the manager or by a team member;
  - a staff member's own day codes.
- **Department capacity check.** It counts the rows on a day whose staff belong to the requester's department, and compares them against the department's size.

## Structure

Tables and dates:

- The two tables live in a `Database` class (`database.dfy`). Rows are kept in insertion order, together with the next auto-increment key of each table.
- `Valid()` says that keys strictly increase along each table and stay below the next key.
- Dates are day numbers. A week is `+ 7`, two weeks `14`, two months `60`. "Today" is a parameter.

Service operations:

- Each write operation is a method with a `modifies` clause on the database.
- The three controller endpoints (`update_wfh_request`, `create_cancel_request`, `reject_expired_request`) each end in a state described from the old tables: by the pure functions `ApproveOrReject` and `Withdraw`, and for the expiry cascade by the request table the sweep leaves, with the rows unchanged. The lemmas about the endpoints are stated on those functions.
- The read-only views and the capacity check take snapshots: the staff directory as a `map` from staff id to record, and the schedule table as a `seq`. Their loops are methods proved against counting and last-mark functions.

| file | module | models |
|---|---|---|
| `wfh_types.dfy` | `WfhTypes` | dates, statuses, durations, staff records; generic `Count`, `Filter`, `FirstIndex` with their lemmas |
| `wfh_request.dfy` | `WfhRequestModel` | the WFHRequest record, its column defaults and `to_dict` |
| `wfh_schedule.dfy` | `WfhScheduleModel` | the WFHSchedule record, its column defaults and `to_dict` |
| `database.dfy` | `WfhDatabase` | the two tables, key lookup (`query.get`), delete by key |
| `wfh_request_service.dfy` | `WfhRequestService` | `create_request`, `get_pending_requests_for_manager` |
| `wfh_schedule_service.dfy` | `WfhScheduleService` | `create_schedule`, `update_schedule`, re-pointing a row |
| `wfh_schedule_views.dfy` | `WfhScheduleViews` | `get_manager_schedule_summary`, `get_manager_schedule_detail`, `get_staff_schedule_detail`, `get_personal_schedule` |
| `wfh_check_service.dfy` | `WfhCheckService` | `check_department_count`, `get_department`, `department_count` |
| `wfh_controller.dfy` | `WfhController` | the decision logic of `update_wfh_request`, `create_cancel_request`, `reject_expired_request` |

Behaviours of the code worth knowing:

- **Approving a withdrawal.** `update_schedule` writes only APPROVED and REJECTED, so approving a withdrawal answers WITHDRAWN but leaves the rows as they were.
- **The EXPIRED cascade.** It changes no row, for the same reason. It only fails for an expired request that has no rows.
- **A failure after the decision is recorded.** The request service commits the decision before the rows are read, so a later exception leaves the decision on the request and the rows as they were.
- **The first visited day.** `create_schedule` always visits the start day, even when the start lies after the end date, because its loop tests at the bottom.
- **Which rows the capacity check counts.** `check_department_count` counts rows of every status and duration.

## Model

| member | source | states |
|---|---|---|
| WfhRequestModel.NewRequest | backend/app/models/wfh_request.py:7-15 | a request inserted without a status gets the column default PENDING and no rejection reason |
| WfhRequestModel.ToDict | backend/app/models/wfh_request.py:17-33 | `is_recurring` holds exactly when the end date is present; `end_date` is absent exactly when the record has none |
| WfhRequestModel.ToDictRoundTrip | backend/app/models/wfh_request.py:17-33 | `to_dict` copies the key, staff, manager, dates, status and both reasons unchanged; the request is rebuilt from the dictionary and its duration |
| WfhRequestModel.ToDictInjective | backend/app/models/wfh_request.py:22-33 | two requests with the same duration and the same dictionary are the same request |
| WfhScheduleModel.NewSchedule | backend/app/models/wfh_schedule.py:7-12 | a row inserted without a status gets the column default PENDING and no withdrawal reason |
| WfhScheduleModel.ToDictRoundTrip | backend/app/models/wfh_schedule.py:14-22 | `to_dict` keeps schedule_id, request_id, date, duration, status and reason_for_withdrawing unchanged and loses exactly the staff, manager, department and position columns |
| WfhDatabase.RequestIndexOfKey | backend/app/models/wfh_request.py:7 | with auto-increment keys, looking a request up by the key of row k finds row k |
| WfhDatabase.ScheduleIndexOfKey | backend/app/models/wfh_schedule.py:7 | with auto-increment keys, looking a schedule row up by the key of row k finds row k |
| WfhDatabase.AppendScheduleKey | backend/app/models/wfh_schedule.py:7 | inserting a row under the next key keeps keys unique and increasing, with the counter moved on |
| WfhDatabase.RemoveRequestKeys | backend/app/services/wfh_schedule_service.py:47 | deleting a request by key keeps the key discipline and removes exactly the request with that key |
| WfhDatabase.RemoveUndoesAppend | backend/app/services/wfh_schedule_service.py:45-49 | deleting a request just inserted under a fresh key gives back the table as it was before the insert |
| WfhRequestService.CreateRequest | backend/app/services/wfh_request_service.py:6-17 | exactly one request is appended, carrying the arguments, status PENDING and a key no earlier request has; earlier requests and the schedule table are unchanged; no date or duplicate check is made |
| WfhRequestService.PendingRequestsForManager | backend/app/services/wfh_request_service.py:20-21 | a request is returned exactly when it is in the table, addressed to the manager and PENDING |
| WfhScheduleService.WeeksFromAt | backend/app/services/wfh_schedule_service.py:41-43 | stepping a week at a time from `first` up to `last` gives ⌊(last − first)/7⌋ + 1 days, the i-th being first + 7i |
| WfhScheduleService.WeeksFromMembers | backend/app/services/wfh_schedule_service.py:41-43 | a day is visited exactly when it lies between first and last and is a whole number of weeks after first |
| WfhScheduleService.WeeksFromIncreasing | backend/app/services/wfh_schedule_service.py:41-43 | the weekly days strictly increase |
| WfhScheduleService.CandidateDatesWeekly | backend/app/services/wfh_schedule_service.py:11-43 | with an end date not before the start, the days considered are start + 7i up to the end date, ⌊(end − start)/7⌋ + 1 of them |
| WfhScheduleService.CandidateDatesIncreasing | backend/app/services/wfh_schedule_service.py:11-43 | the days considered strictly increase and are whole weeks after the start |
| WfhScheduleService.CollidesIgnoresOtherDays | backend/app/services/wfh_schedule_service.py:15-21 | rows on other days, such as those inserted earlier in the loop, do not change whether a day collides |
| WfhScheduleService.ExpansionRows | backend/app/services/wfh_schedule_service.py:28-38 | every inserted row carries the given request, staff, manager, duration, department and position, status PENDING and the next consecutive key |
| WfhScheduleService.ExpansionDays | backend/app/services/wfh_schedule_service.py:15-43 | the inserted rows' days are exactly the considered days that do not collide with a non-EXPIRED, non-REJECTED first row of that staff and day, in order |
| WfhScheduleService.ExpansionEmpty | backend/app/services/wfh_schedule_service.py:15-45 | nothing is inserted exactly when every considered day collides |
| WfhScheduleService.ExpansionNoCollisions | backend/app/services/wfh_schedule_service.py:13-43 | without collisions one row is inserted per considered day, in order |
| WfhScheduleService.ExpansionWeekly | backend/app/services/wfh_schedule_service.py:28-43 | the inserted days strictly increase and are whole weeks after the start |
| WfhScheduleService.ThreeWeekSpan | backend/app/services/wfh_schedule_service.py:11-43 | an end date 21 days after the start with no collisions yields four rows at start, start+7, start+14, start+21 |
| WfhScheduleService.ExpansionStep | backend/app/services/wfh_schedule_service.py:13-43 | one more visited day adds that day's row exactly when the day does not collide |
| WfhScheduleService.ExpansionKeys | backend/app/services/wfh_schedule_service.py:28-37 | the rows inserted under consecutive keys from the next key keep the schedule keys unique and increasing |
| WfhScheduleService.ExpandWeekly | backend/app/services/wfh_schedule_service.py:13-43 | the do-while loop, which queries the table as it grows, inserts exactly the expansion of the considered days against the table as it was |
| WfhScheduleService.InsertWeeklyRows | backend/app/services/wfh_schedule_service.py:13-43 | the inserted rows are appended to the schedule table, the key counter moves on by their number, and the request table is untouched |
| WfhScheduleService.CreateSchedule | backend/app/services/wfh_schedule_service.py:9-53 | when rows were inserted they are returned and committed; when none were, no row is added, and the request is deleted with "No schedules were created" (or the missing request is reported) |
| WfhScheduleService.PropagateStatus | backend/app/services/wfh_schedule_service.py:64-68 | propagating a status keeps the number of rows; what it does to each row is stated by PropagateWrites and PropagateIgnores |
| WfhScheduleService.PropagateWrites | backend/app/services/wfh_schedule_service.py:64-68 | for APPROVED or REJECTED every row of the request gets that status whatever it had, and rows of other requests are unchanged |
| WfhScheduleService.PropagateIgnores | backend/app/services/wfh_schedule_service.py:64-68 | any other status (WITHDRAWN, EXPIRED, …) leaves every row unchanged |
| WfhScheduleService.UpdateSchedule | backend/app/services/wfh_schedule_service.py:56-74 | a request without rows fails with "No schedules found" and changes nothing; otherwise the status is propagated to its rows, True is answered and the request table is untouched |
| WfhScheduleService.ChangeScheduleRequestId | backend/app/controllers/wfh_controller.py:416-417 | the call `change_schedule_request_id(schedule_id, request_id)`, its behaviour a parameter: its rewrite lands on the row with that key and no other row, the key and the request table stay, and its answer is returned for the comparison at line 417 |
| WfhScheduleService.OrigScheduleRequestId | backend/app/controllers/wfh_controller.py:181-182 | the call `orig_schedule_request_id(schedule.schedule_id)`, its behaviour a parameter: its rewrite lands on the row with that key and no other row, and the key and the request table stay |
| WfhScheduleViews.DayList | backend/app/services/wfh_schedule_service.py:84-88 | the day list holds every calendar day from start to end inclusive, in order, and is empty when the start is after the end |
| WfhScheduleViews.CountDay | backend/app/services/wfh_schedule_service.py:99-112 | the morning count is the number of the team's APPROVED full-day or morning rows on the day; the afternoon count likewise with full-day or afternoon rows |
| WfhScheduleViews.ManagerScheduleSummary | backend/app/services/wfh_schedule_service.py:77-125 | no dates for a manager without reports; otherwise one entry per day from start to end, with the team size, the two WFH counts and the office counts equal to team size minus WFH counts |
| WfhScheduleViews.ApprovedInBounded | backend/app/services/wfh_schedule_service.py:99-103 | when nobody has two APPROVED rows on the day, the team's APPROVED rows on the day are at most the team size |
| WfhScheduleViews.WfhWithinTeam | backend/app/services/wfh_schedule_service.py:105-115 | under the same condition neither WFH count exceeds the team size, so neither office count is negative |
| WfhScheduleViews.AddedRowCounts | backend/app/services/wfh_schedule_service.py:105-112 | a team member's APPROVED full day adds one to both counts, a morning only to AM, an afternoon only to PM, any other row nothing |
| WfhScheduleViews.LastMarkMeans | backend/app/services/wfh_schedule_service.py:151-160 | a member's presence is set exactly when some APPROVED row of a WFH duration exists for the member on the day, and it is that of the last such row |
| WfhScheduleViews.DefaultsToOffice | backend/app/services/wfh_schedule_service.py:134-142 | without such a row the member is in the office in both halves |
| WfhScheduleViews.LastRowDecides | backend/app/services/wfh_schedule_service.py:151-160 | the last such row decides: full day is WFH/WFH, morning WFH/OFFICE, afternoon OFFICE/WFH |
| WfhScheduleViews.LastMarkStep | backend/app/services/wfh_schedule_service.py:151-160 | one more row changes a member's presence only when it is such a row of that member |
| WfhScheduleViews.OfficeByDefault | backend/app/services/wfh_schedule_service.py:134-142 | the first loop gives every team member, and only them, a line with the name, position and OFFICE in both halves |
| WfhScheduleViews.ApproveStep | backend/app/services/wfh_schedule_service.py:151-160 | one pass of the second loop turns the team's lines as the earlier rows leave them into the lines as one more row leaves them |
| WfhScheduleViews.ApplyApproved | backend/app/services/wfh_schedule_service.py:145-160 | after the second loop each team member's line shows the presence the member's last APPROVED WFH row on the day gives |
| WfhScheduleViews.TeamPresence | backend/app/services/wfh_schedule_service.py:128-162 | one line per member of the manager's team (none for an empty team), each with the presence the rows give |
| WfhScheduleViews.ManagerScheduleDetail | backend/app/services/wfh_schedule_service.py:128-167 | the manager's view is the team's presence on the day |
| WfhScheduleViews.SeesOwnTeam | backend/app/services/wfh_schedule_service.py:216-226 | a staff member with a (non-zero) reporting manager sees a team that includes the staff member |
| WfhScheduleViews.StaffScheduleDetail | backend/app/services/wfh_schedule_service.py:214-264 | an unknown staff id fails; otherwise the view is the presence of the team of the reporting manager, or of the staff member when there is none |
| WfhScheduleViews.Code | backend/app/services/wfh_schedule_service.py:192-204 | a row contributes a code exactly when it is APPROVED or PENDING and of a WFH duration |
| WfhScheduleViews.DayCodeEmpty | backend/app/services/wfh_schedule_service.py:182-204 | a day's code is empty exactly when every APPROVED or PENDING row of the staff member on the day is a withdrawal |
| WfhScheduleViews.DayCodeIgnores | backend/app/services/wfh_schedule_service.py:186-190 | rows of other staff, other days or other statuses leave a day's code as it was |
| WfhScheduleViews.CodeOfDay | backend/app/services/wfh_schedule_service.py:182-204 | the inner loop concatenates the listed rows' codes in table order |
| WfhScheduleViews.PersonalSchedule | backend/app/services/wfh_schedule_service.py:170-211 | one entry per day from start to end inclusive, each with that day's code |
| WfhCheckService.GetDepartment | backend/app/services/wfh_check_service.py:39-42 | the department is found exactly when the staff member has a record, and it is that record's department |
| WfhCheckService.DepartmentCount | backend/app/services/wfh_check_service.py:45-47 | the count of staff records of a department is zero exactly when no staff record has that department |
| WfhCheckService.OwnDepartmentCounted | backend/app/services/wfh_check_service.py:40-47 | a staff member is counted in the own department, so the department size is at least one and the division never divides by zero |
| WfhCheckService.AppliedCountIgnoresStatus | backend/app/services/wfh_check_service.py:20-26 | changing a row's status never changes the applied count |
| WfhCheckService.TooFewLeftInIntegers | backend/app/services/wfh_check_service.py:29-35 | the fraction test (dc − ac)/dc < 0.5 holds exactly when 2·(dc − ac) < dc |
| WfhCheckService.HalfIsAcceptable | backend/app/services/wfh_check_service.py:29 | exactly half the department applied is still acceptable, the comparison being strict |
| WfhCheckService.CheckDepartmentCount | backend/app/services/wfh_check_service.py:8-35 | an unknown requester, or an unknown staff member on a row of the day, fails; otherwise the answer is TooMany ('1') exactly when 2·(dc − ac) < dc and Acceptable ('2') otherwise, with ac the day's rows of the department of any status; nothing is written |
| WfhController.ApprovalDatesMembers | backend/app/controllers/wfh_controller.py:145-157 | a day is checked exactly when it is not before today and is the start of a single-day request, or a whole number of weeks after the start and not after the end date of a recurring one |
| WfhController.KeptWeeksFilters | backend/app/controllers/wfh_controller.py:147-153 | the recurring loop keeps exactly the weekly days that are not before today, in order |
| WfhController.WeeklyDatesToCheck | backend/app/controllers/wfh_controller.py:147-153 | the recurring loop produces the weekly days from the start to the end date that are not before today |
| WfhController.DatesToCheck | backend/app/controllers/wfh_controller.py:145-157 | the list of days to check is the approval days of the request |
| WfhController.CollectViolations | backend/app/controllers/wfh_controller.py:158-163 | every checked day the capacity check refuses is collected, in order, with no early exit |
| WfhController.ViolationsMembers | backend/app/controllers/wfh_controller.py:158-163 | a day is reported exactly when it is checked and refused |
| WfhController.CarryOut | backend/app/controllers/wfh_controller.py:169-187 | after an accepted status update the decision is recorded on the request and carried to the rows as `Carry` describes; a failure (no row, no parked id, no original request) keeps the recorded decision and leaves the rows as they were |
| WfhController.ApproveWithdrawal | backend/app/controllers/wfh_controller.py:174-180 | approving a withdrawal withdraws the original request parked in its first row when that has no end date, pushes WITHDRAWN to the rows and answers WITHDRAWN; without a parked id or original request it fails with no further change |
| WfhController.PushDecision | backend/app/controllers/wfh_controller.py:180-182 | any other decision is pushed to the request's rows; for a rejected withdrawal the row read first then goes through the restore service |
| WfhController.UpdateWfhRequest | backend/app/controllers/wfh_controller.py:133-200 | the endpoint's outcome and the tables after it are those `ApproveOrReject` gives for the tables before it |
| WfhController.UnknownRequestChangesNothing | backend/app/controllers/wfh_controller.py:135-137 | an unknown request id is reported as missing and changes nothing |
| WfhController.FailureKeepsDecision | backend/app/controllers/wfh_controller.py:170-200 | once the request service has accepted a decision, a failure further on leaves the request with that decision and every row as it was |
| WfhController.PolicyViolationIffRefusedDay | backend/app/controllers/wfh_controller.py:140-167 | an ordinary approval is refused exactly when some checked day is refused; the refusal names all of them, changes nothing and does not depend on the request status update |
| WfhController.WithdrawalBypassesCheck | backend/app/controllers/wfh_controller.py:140 | the outcome for a withdrawal request does not depend on the capacity check |
| WfhController.ApprovalApprovesRows | backend/app/controllers/wfh_controller.py:169-187 | an accepted ordinary approval records the decision on the request, sets every row of the request to APPROVED and touches no other row |
| WfhController.ApprovingWithdrawal | backend/app/controllers/wfh_controller.py:174-180 | approving a withdrawal answers WITHDRAWN and leaves the rows as they are; the withdrawal request gets the decision the request service wrote, the original request parked in the first row becomes WITHDRAWN exactly when it has no end date, and every other request is unchanged |
| WfhController.RejectingWithdrawal | backend/app/controllers/wfh_controller.py:180-182 | rejecting a withdrawal records the decision on the withdrawal request, sets its rows to REJECTED and passes the first, so updated, to the restore service; other rows are unchanged |
| WfhController.CreateWithdrawRequest | backend/app/controllers/wfh_controller.py:392-425 | the endpoint's outcome and the tables after it are those `Withdraw` gives: a missing row, a row out of range, or a new PENDING single-day withdrawal request for the row's staff, manager and day, with the row as the re-pointing service leaves it and SUCCESS when that service answers the new id |
| WfhController.WithdrawWindow | backend/app/controllers/wfh_controller.py:393-425 | a withdrawal request is created exactly when the row exists and its day lies in [today − 14, today + 14], both ends included, and SUCCESS is answered exactly when the re-pointing then answers the new id; otherwise nothing changes |
| WfhController.WithdrawThenReject | backend/app/controllers/wfh_controller.py:404-418 | withdrawing a row and then rejecting the withdrawal gives the row back to the request it belonged to, provided the re-pointing parks the old id where line 177 reads it and the restore service gives a row back to its parked request; the withdrawal request stays with the decision the request service wrote |
| WfhController.RejectExpiredRequests | backend/app/controllers/wfh_controller.py:209-224 | the request table is the one the sweep leaves, EXPIRED is pushed to every id the sweep answers, no row changes, and the endpoint succeeds exactly when every such id has rows |

## Left out

- HTTP: routing, JSON bodies, required-field checks, status codes and log output. Each endpoint's answer is an outcome datatype; a policy violation carries its days rather than the formatted message.
- Time and date strings: `datetime.now()` is the parameter `today`. Dates are day numbers, so ISO and `%d-%m-%Y` formatting is not modelled.
- Services that the endpoints call but whose code is not part of this model. Each is a parameter:
  - `check_team_count` is `teamCheck`.
  - `update_request` is `updateRequest`. It answers the status and rejection reason it writes to the request, or a refusal message. Its own rules (such as the 60-day cutoff passed to it) are not modelled. Its write is taken to be committed, as every service here commits its own writes.
  - `reject_expired` is `rejectExpired`. It gives the request table as the sweep leaves it and the ids it answers. It is taken to rewrite requests in place, so keys stay where they were, and to commit.
  - `change_schedule_request_id` is `repoint`. It gives the row as it leaves it and the id it answers. `orig_schedule_request_id` is `restore`, giving the row as it leaves it. Both are taken to rewrite only the row with the key they are given, to keep that key, and to commit. What they do to the row's request id, status and `reason_for_withdrawing` is not assumed. WfhController.WithdrawThenReject states its conclusion under explicit hypotheses on them.
- WfhController.CarryOut: an exception after the request status update undoes everything but that update, which the request service is taken to have committed. Examples are a missing first row, a first row whose `reason_for_withdrawing` is not an integer, or a missing original request. Each such exception comes before the rows' status update commits. An exception raised inside `orig_schedule_request_id` is not modelled; `restore` always answers.
- WfhController.UpdateWfhRequest: treats exceptions as CarryOut does, so it rests on the same assumption that `update_request` commits.
- WfhController.CreateWithdrawRequest: when the re-pointing answers another id, the view returns no response at all. The outcome `NoResponse` stands for that, with both writes kept.
- WfhController.RejectExpiredRequests: the first id without rows stops the loop and the endpoint reports failure. The sweep's writes stand; the earlier iterations changed no row, since the rows' status update ignores EXPIRED.
- WfhCheckService.CheckDepartmentCount: reads the staff id of each row of the day, as the services assume every row has one. The schedule `to_dict` in `wfh_schedule.py` has no `staff_id` key, so as written that lookup raises for every row of the day.
- WfhCheckService.CheckDepartmentCount: the floating-point fraction is compared in exact arithmetic. The two agree for department sizes below 2^52.
- WfhCheckService.GetDepartment: an unknown staff id makes the source raise on `None.dept`. The model returns no department, and the check reports `UnknownStaff`.
- WfhRequestService.CreateRequest: also takes the `duration` that the controller passes. The `create_request` in `wfh_request_service.py` has no such parameter, and the request record has no `duration` column. As written, the controller's call would raise.
- Schema drift: the services read and write staff, manager, department and position on schedule rows, and duration on requests. The records as declared have none of these columns. The model carries them.
- The staff directory is a map from staff id to name, department, position and reporting manager. The legacy `Staff`, `Employee` and `Request` models are left out.
- Query order is taken to be table order (the SQL has no ORDER BY).
- WfhScheduleViews.ManagerScheduleDetail: the team's lines are returned as a map keyed by staff id, so the order of the dictionary's values is not modelled. The same holds for StaffScheduleDetail and TeamPresence.
- Endpoints outside the decision logic are not modelled:
  - `create_wfh_request`;
  - the pending-requests, check-count, staff and HR summary, schedules-by-request and check-withdrawal routes;
  - authentication, `notify.py`, configuration and the frontend.
- Concurrency and transaction isolation.
