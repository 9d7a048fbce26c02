# StackIt forum core in Dafny

StackIt is a question-and-answer forum. This project models its backend rule
layer and two front-end helpers.

The backend rule layer is the Express route handlers and controllers. Each
handler runs a fixed chain of guards (validation, not found, ownership,
duplicate) and then changes the document store in place. The store holds
users with their embedded notifications, questions, answers with their votes,
voters and comments, and tags.

The two front-end helpers are:

- the ask-question form (tag parsing and the checks before a question is
  sent);
- the question list page (address-bar parameters, the list request, page
  buttons and HTML excerpts).

## Layout

- `common.dfy` (`Common`): Option, truthiness, filter, take/window, and the
  map keys in ascending order.
- `sorting.dfy` (`Sorting`): an insertion sort by a total preorder, and
  prefixes of a sorted sequence.
- `text.dfy` (`Text`): `trim`, ASCII `toLowerCase`, the lower-case-and-trim
  normal form, `split`/join on one character, and decimal `parseInt`/`toString`.
- `models.dfy` (`Models`): the four document kinds, their defaults and their
  schema rules.
- `store.dfy` (`Store`): the class `Db`. It has one map field per collection
  and a counter that hands out fresh ids. `Valid()` holds:
  - every schema rule;
  - the unique indexes (user names, user e-mails, tag names);
  - every key is below the counter.
- `question_routes.dfy`, `answer_routes.dfy`, `notification_routes.dfy`,
  `auth_routes.dfy`, `tag_routes.dfy`: one module per route file.
- `question_controller.dfy`, `answer_controller.dfy`, `stats_controller.dfy`:
  one module per controller.
- `ask_question.dfy` (`AskQuestion`) and `home.dfy` (`Home`): the two
  front-end components.

Handlers that change the store are methods on `Db` with `modifies db`. Each
returns the HTTP status and states the whole new store in terms of the old
one. Handlers that only read the store are functions over its maps. Errors
that surface only through a handler's catch-all are modelled as status 500
with the store unchanged. These are schema validation failures and a
missing user on the profile routes.

## Model

| member | source | states |
|---|---|---|
| Models.CountVotesTotal | backend/models/Answer.js:39-44 | every voter record is "up" or "down", so the two counts add up to the number of records |
| Models.AppendVoter | backend/routes/answers.js:119-125 | appending the record of a user who has not voted keeps one record per user, raises exactly the counter of its type by one and leaves the other |
| Models.NewAnswer | backend/models/Answer.js:4-38 | a new answer has the trimmed description, is not accepted, has votes 0/0 and no voters or comments; it is valid exactly when the description is not blank |
| Models.NewQuestion | backend/models/Question.js:3-34 | a new question has the trimmed title and description, the given tag ids in order, no answers and acceptedAnswer null; it is valid exactly when neither text is blank |
| Models.NewTag | backend/models/Tag.js:3-12 | a new tag has the trimmed name and is valid exactly when the name is not blank |
| Models.NewUser | backend/models/User.js:20-66 | a new user has a trimmed name, a lower-cased trimmed e-mail, role user, empty profile fields and no notifications; it is valid exactly when name and e-mail are not blank and the password has at least 6 characters |
| Models.NewNotification | backend/models/User.js:5-18 | a new notification is unread and created now |
| Models.Notify | backend/routes/answers.js:49-53 | a notified user has exactly one more notification at the end; nothing else changes but the save time |
| Store.Db.constructor | backend/models/User.js:20-66 | an empty store is valid |
| Store.NotifyUser | backend/models/User.js:61 | pushing a notification with a fresh id keeps the store valid and changes only that user |
| Store.FindFirst | backend/routes/auth.js:23 | `findOne` returns the first stored document that matches, or none when no document matches |
| Store.FindFirstUnique | backend/models/User.js:30 | with a unique key, the document found is the only one that matches |
| Store.TagNameUnique | backend/models/Tag.js:7 | a tag name identifies at most one stored tag |
| Text.Trim | backend/models/Question.js:7 | the result is a trimmed slice of the input; it is empty exactly when the input is blank |
| Text.TrimIdempotent | backend/models/Tag.js:8 | trimming twice is trimming once |
| Text.NormalizeShape | backend/routes/tags.js:62 | `toLowerCase().trim()` gives a trimmed lower-case string, empty exactly for blank input |
| Text.NormalizeIdempotent | backend/routes/questions.js:31 | the normal form of a normal form is itself |
| Text.NormalizeIgnoresCaseAndSpace | backend/routes/questions.js:31 | names that differ only in ASCII case and surrounding white space have the same normal form |
| Text.LowerTrimCommute | backend/routes/questions.js:31 | lower-casing then trimming equals trimming then lower-casing |
| Text.JoinSplit | frontend/src/components/AskQuestion.jsx:38 | joining the pieces of a split with the separator gives back the string |
| Text.SplitJoin | frontend/src/components/AskQuestion.jsx:38 | splitting a join of separator-free pieces gives back the pieces |
| Text.ParseInt | backend/routes/questions.js:77-78 | `parseInt` is NaN exactly when no digit follows the leading white space and sign |
| Text.ParseIntNatToString | frontend/src/components/Home.jsx:80 | a page number written by `toString` is read back by `parseInt` |
| Text.ParseIntIntToString | frontend/src/components/Home.jsx:40 | any integer written by `toString`, negative ones too, is read back by `parseInt` |
| QuestionRoutes.TagNamed | backend/routes/questions.js:31 | finds the tag with exactly that name, or none when no tag has it |
| QuestionRoutes.ResolveOneSound | backend/routes/questions.js:29-39 | one get-or-create step keeps tag names unique and every id below the counter |
| QuestionRoutes.NormalizeAllShape | backend/routes/questions.js:31 | each normalised tag name is trimmed, and empty exactly when the input name is blank |
| QuestionRoutes.ResolveTagsValid | backend/routes/questions.js:28-40 | the get-or-create loop keeps the tags valid and leaves every existing tag as it was |
| QuestionRoutes.ResolveTagsOk | backend/routes/questions.js:28-40 | the loop fails exactly when some normalised name is empty; on success it collects one id per name |
| QuestionRoutes.ResolveTagsIds | backend/routes/questions.js:28-40 | on success the k-th id is the id of the tag named by the k-th name: existing tags are reused, absent ones created |
| QuestionRoutes.SameNameSameTag | backend/routes/questions.js:31-38 | two names with the same normal form ("React" and " react") resolve to the same tag id |
| QuestionRoutes.ResolveTagsStuck | backend/routes/questions.js:35 | once a create has failed, the later names change nothing |
| QuestionRoutes.ResolveRequestTags | backend/routes/questions.js:28-40 | the request's tag list fails exactly when a name is blank; otherwise the ids, in input order, name the normalised names, and the existing tags are unchanged |
| QuestionRoutes.GetOrCreateTag | backend/routes/questions.js:31-38 | one iteration on the store is one step of the loop specification |
| QuestionRoutes.GetOrCreateTags | backend/routes/questions.js:27-40 | the loop over the store computes exactly the loop specification |
| QuestionRoutes.CreateQuestion | backend/routes/questions.js:14-67 | a missing or empty title or description gives 400 with nothing stored; otherwise the tags are resolved, and a 201 stores exactly one new question with the trimmed texts, the tag ids in input order and the requester as author; a blank tag name or a blank text gives 500 |
| QuestionRoutes.IntOr | backend/routes/questions.js:77-78 | `parseInt(x)` or else the default d: a value that is absent, NaN or zero gives the default; any other parsed value is kept |
| QuestionRoutes.CeilDiv | backend/routes/questions.js:130 | `Math.ceil(total / limit)` is the least number of pages that hold every question |
| QuestionRoutes.CeilDivBelow | backend/routes/questions.js:139 | page < ceil(total/limit) exactly when page × limit < total |
| QuestionRoutes.PageCount | backend/routes/questions.js:130 | `Math.ceil(total / limit)` for a limit of either sign: the least integer at least total / limit, zero or less for a negative limit |
| QuestionRoutes.PageCountBelow | backend/routes/questions.js:139 | page < ceil(total/limit) exactly when page × limit < total (positive limit) or page × limit > total (negative limit) |
| QuestionRoutes.BatchSize | backend/routes/questions.js:127 | `.limit(n)` returns at most n questions, or -n for a negative n (one batch) |
| QuestionRoutes.Offset | backend/routes/questions.js:79 | the skip (page - 1) × limit is negative exactly when page - 1 and limit have opposite signs |
| QuestionRoutes.PageAt | backend/routes/questions.js:79 | every position of the listing lies in the window of exactly one page |
| QuestionRoutes.NewestFirst | backend/routes/questions.js:119-125 | the selection is sorted by createdAt descending, holds only stored questions under their own ids that pass the filter, and no id twice |
| QuestionRoutes.NewestFirstComplete | backend/routes/questions.js:122 | every stored question that passes the filter is in the selection |
| QuestionRoutes.NewestFirstCount | backend/routes/questions.js:129 | the selection has exactly as many entries as there are stored questions that pass the filter (`countDocuments` of the same query) |
| QuestionRoutes.PaginationOf | backend/routes/questions.js:129-141 | totalPages is the least integer at least total/limit (for a positive limit: the fewest pages holding every question; for a negative one, zero or less); hasNextPage holds exactly when page lies below total/limit, hasPrevPage exactly when page > 1; currentPage is the page |
| QuestionRoutes.ListQuestions | backend/routes/questions.js:75-150 | a tag naming no tag gives an empty page with zero totals and both flags false; otherwise a negative skip (page-1)×limit gives 500, and any other query the window at that skip, of at most the absolute value of limit questions, of the newest-first selection, with its pagination |
| QuestionRoutes.ListedTotalIsCount | backend/routes/questions.js:129 | on a listed page totalQuestions is the number of stored questions that pass the filters |
| QuestionRoutes.ListedNewestFirst | backend/routes/questions.js:119-127 | a page holds at most the absolute value of limit questions, newest first |
| QuestionRoutes.SelectedMatches | backend/routes/questions.js:87-116 | a selected question is stored under its id and passes the search, unanswered and tag filters |
| QuestionRoutes.ListedAreSelected | backend/routes/questions.js:85-101 | every listed question is stored under its id and passes the search, unanswered and tag filters |
| QuestionRoutes.SelectedIsListed | backend/routes/questions.js:122-127 | every stored question that passes the filters is on some page |
| QuestionRoutes.PositionListed | backend/routes/questions.js:79 | the k-th selected question is on page k div limit + 1 |
| QuestionRoutes.ListedWindow | backend/routes/questions.js:77-79 | for a page and a limit of at least 1 the listed page is the window at (page-1)×limit of the selection |
| QuestionRoutes.PageWritten | backend/routes/questions.js:77 | writing page n ≥ 1 into the query makes the handler read page n |
| QuestionRoutes.GetQuestion | backend/routes/questions.js:156-194 | an absent id gives 404; otherwise 200 with the stored question |
| QuestionRoutes.AcceptAnswer | backend/routes/questions.js:199-264 | guards in order 404/403/404/400; only after all pass is acceptedAnswer set, to an answer of this question; no answer, user or tag changes |
| AnswerRoutes.SubmitAnswer | backend/routes/answers.js:11-75 | an empty description gives 400 before any lookup and an absent question 404, with nothing stored; on 201 exactly one answer is created, its id goes last in the question's list and the asker is notified unless they are the submitter |
| AnswerRoutes.RecordAnswer | backend/routes/answers.js:33-56 | stores the answer, appends its id and notifies the asker, keeping the store valid |
| AnswerRoutes.NotifyAskerOf | backend/routes/answers.js:46-56 | the asker gets one "answered your question" notification unless they are the submitter |
| AnswerRoutes.AppendAnswer | backend/routes/answers.js:34-42 | a fresh id holds the new answer and is appended to the question's answers; earlier entries are unchanged |
| AnswerRoutes.ParseVoteType | backend/routes/answers.js:86 | the type is accepted exactly when it is "up" or "down" |
| AnswerRoutes.Vote | backend/routes/answers.js:80-146 | guards 400 (type), 404, 403 (own answer), 400 (already voted) leave the store unchanged; a 200 raises exactly one counter by one and appends one voter record, keeping one record per user and counters equal to the record counts |
| AnswerRoutes.WordRun | backend/routes/answers.js:163 | the run of `[A-Za-z0-9_]` at the start is maximal |
| AnswerRoutes.MentionNames | backend/routes/answers.js:163-164 | every extracted name is a non-empty run of word characters |
| AnswerRoutes.MentionNamesExact | backend/routes/answers.js:163-164 | a name is extracted exactly when some '@' in the text is followed by that maximal run, even inside an address such as x@y.com |
| AnswerRoutes.MentionNamesSound | backend/routes/answers.js:163 | every extracted name follows an '@' as a maximal run |
| AnswerRoutes.MentionNamesComplete | backend/routes/answers.js:163 | every '@' followed by a maximal run yields that run |
| AnswerRoutes.UsersNamed | backend/routes/answers.js:167-168 | the mention ids are exactly the users whose name is one of the names; unknown names are ignored |
| AnswerRoutes.MentionRecipients | backend/routes/answers.js:186-190 | the loop notifies exactly the mentioned users other than the commenter and the answer's author |
| AnswerRoutes.MentionRecipientsDistinct | backend/routes/answers.js:186 | distinct mentioned users give distinct recipients |
| AnswerRoutes.NotifyAll | backend/routes/answers.js:186-198 | notifying a list of users keeps the same set of users |
| AnswerRoutes.NotifyAllAt | backend/routes/answers.js:191-195 | each recipient gets exactly one new notification, numbered in loop order |
| AnswerRoutes.NotifyAllOthers | backend/routes/answers.js:186-198 | a user who is not a recipient is unchanged |
| AnswerRoutes.NotifyAllKeepsValid | backend/models/User.js:5-9 | notifications with a message keep every user valid |
| AnswerRoutes.NotifyMentioned | backend/routes/answers.js:186-198 | the loop on the store notifies exactly the recipients, each once, in order |
| AnswerRoutes.AppendComment | backend/routes/answers.js:170-175 | the comment goes last in the answer's comments and nothing else changes |
| AnswerRoutes.CommentNotifications | backend/routes/answers.js:176-198 | the notifications of a comment keep the same set of users and use fresh ids |
| AnswerRoutes.CommentNotificationsEffect | backend/routes/answers.js:176-198 | the answer's author gets exactly one "commented" notification unless they are the commenter; each other mentioned user gets exactly one "mentioned" notification; everyone else is unchanged |
| AnswerRoutes.CommentNotificationsKeepValid | backend/routes/answers.js:176-198 | the notifications of a comment keep the users valid |
| AnswerRoutes.AddComment | backend/routes/answers.js:151-207 | missing or blank text gives 400 and an absent answer 404, with nothing stored; on 201 the comment, with the ids of the users it names, goes last, and the notifications are exactly CommentNotifications |
| AnswerRoutes.CommentOn | backend/routes/answers.js:162-198 | a comment that passed the guards is stored and its notifications sent |
| AnswerRoutes.NotifyComment | backend/routes/answers.js:176-198 | the store's users and counter after the notifications are exactly CommentNotifications |
| NotificationRoutes.Unread | backend/routes/notifications.js:22-23 | exactly the notifications not yet read |
| NotificationRoutes.NewerNotificationIsPreorder | backend/routes/notifications.js:24 | createdAt descending is a total preorder |
| NotificationRoutes.ListUnread | backend/routes/notifications.js:10-38 | an absent user gives 404; otherwise 200 with the unread notifications, a permutation of them sorted newest first, and count equal to the list length |
| NotificationRoutes.ListUnreadExact | backend/routes/notifications.js:22-30 | a notification is listed exactly when the user holds it and it is unread |
| NotificationRoutes.FindNotification | backend/routes/notifications.js:56 | `notifications.id(x)` finds the first notification with that id, or none when no notification has it |
| NotificationRoutes.MarkedReadEffect | backend/routes/notifications.js:73 | reading one unread notification keeps the list length and removes exactly it from the unread ones |
| NotificationRoutes.MarkRead | backend/routes/notifications.js:43-88 | an absent user or notification gives 404 and an already-read one 400, with nothing changed; on 200 only the target's isRead becomes true |
| AuthRoutes.UserByEmail | backend/routes/auth.js:23 | finds a user with the lower-cased trimmed address, or none when no user has it |
| AuthRoutes.AddUserKeepsValid | backend/models/User.js:24-30 | a valid new user with an unused name and address keeps the users valid |
| AuthRoutes.RenameUserKeepsValid | backend/models/User.js:24 | renaming a user to an unused name keeps the users valid |
| AuthRoutes.Register | backend/routes/auth.js:18-58 | an address already in use gives 400 and creates no user; 201 stores exactly one new user; anything else is 500 |
| AuthRoutes.AddUser | backend/routes/auth.js:32-36 | a fresh id holds the new user |
| AuthRoutes.Login | backend/routes/auth.js:63-105 | an unknown address and a wrong password give the same 401 answer; 200 only for the account with that address when the password matches |
| AuthRoutes.LoginFailuresIdentical | backend/routes/auth.js:68-83 | the failure for an unknown address equals the failure for a wrong password |
| AuthRoutes.Me | backend/routes/auth.js:110-141 | the profile view of the signed-in user, with no password field |
| AuthRoutes.MeIgnoresPassword | backend/routes/auth.js:113-132 | the /me answer does not depend on the stored password |
| AuthRoutes.ProfileUpdated | backend/routes/auth.js:153-157 | name and avatar are replaced only by truthy values and kept otherwise; bio, location and website are replaced whenever supplied, empty strings included, and kept when absent; e-mail, role, password and notifications never change |
| AuthRoutes.ProfileUpdateIdempotent | backend/routes/auth.js:153-157 | the same update twice is the same as once |
| AuthRoutes.UpdateProfile | backend/routes/auth.js:146-183 | on 200 only the requester's profile fields change, as ProfileUpdated says; otherwise nothing changes |
| AuthRoutes.AllRead | backend/routes/auth.js:215 | every notification is read, with ids, messages, times and order kept |
| AuthRoutes.AllReadEffect | backend/routes/auth.js:214-216 | after mark-all-read nothing is unread, and doing it again changes nothing |
| AuthRoutes.ReadAll | backend/routes/auth.js:215 | the `forEach` loop computes AllRead |
| AuthRoutes.MarkAllRead | backend/routes/auth.js:212-221 | only the requester's notifications change, all to read; count and messages are kept |
| TagRoutes.NameLeTotal | backend/routes/tags.js:13 | any two names are ordered one way or the other |
| TagRoutes.NameLeTransitive | backend/routes/tags.js:13 | the name order is transitive |
| TagRoutes.ListTags | backend/routes/tags.js:11-26 | every stored tag exactly once with its id, sorted by name ascending |
| TagRoutes.CreateTag | backend/routes/tags.js:31-77 | a non-admin gets 403 before the name is looked at; a missing name 400; a name whose normal form exists 400; with nothing created; on 201 one tag named by the normal form |
| TagRoutes.AddTag | backend/routes/tags.js:61-63 | a fresh id holds the new tag |
| TagRoutes.OccurrencesPositive | backend/routes/tags.js:84-91 | an id is counted at least once exactly when some question uses it |
| TagRoutes.KnownUsedIds | backend/routes/tags.js:92-100 | exactly the used ids that name a stored tag, each once; the others are dropped |
| TagRoutes.Candidates | backend/routes/tags.js:84-107 | one row per used stored tag, with its name and count, and no tag twice |
| TagRoutes.PopularTags | backend/routes/tags.js:82-123 | at most 15 rows sorted by count descending, no tag twice, each a stored tag with its name and its number of (question, tag) occurrences |
| TagRoutes.PopularIsTop | backend/routes/tags.js:108-109 | a used tag that is left out means 15 rows are listed, each used at least as often |
| QuestionController.DeleteQuestion | backend/controllers/questionController.js:3-23 | 404 when absent, 403 for another user, with nothing changed; on 200 exactly that question is removed; its answers and all tags stay |
| AnswerController.DeleteAnswer | backend/controllers/answerController.js:3-21 | 404 when absent, 403 for another user, with nothing changed; on 200 exactly that answer is removed; the question still lists its id |
| StatsController.NewestAnswers | backend/controllers/statsController.js:17-19 | the selected answers sorted by createdAt descending, each a stored answer under its own id, no id twice |
| StatsController.NewestAnswersCount | backend/controllers/statsController.js:9 | the selection has exactly as many entries as there are stored answers that pass the filter |
| StatsController.RecentQuestions | backend/controllers/statsController.js:12-15 | 5 of the user's questions, or all of them when fewer, newest first, no question twice |
| StatsController.RecentAnswers | backend/controllers/statsController.js:17-20 | 5 of the user's answers, or all of them when fewer, newest first, no answer twice |
| StatsController.GetMyStats | backend/controllers/statsController.js:4-40 | the counts are the numbers of the requester's questions and answers; each list holds 5 of them (all when fewer), distinct, newest first; titles line up with question ids and descriptions with answer ids |
| StatsController.RecentQuestionColumns | backend/controllers/statsController.js:12-29 | the id and title columns of the recent questions meet QuestionColumns: length, distinct ids, matching titles, newest first |
| StatsController.RecentAnswerColumns | backend/controllers/statsController.js:17-30 | the id and description columns of the recent answers meet AnswerColumns |
| StatsController.RecentQuestionsAreNewest | backend/controllers/statsController.js:12-15 | a question of the requester that is not listed means 5 are listed, each at least as new |
| StatsController.RecentAnswersAreNewest | backend/controllers/statsController.js:17-20 | an answer of the requester that is not listed means 5 are listed, each at least as new |
| AskQuestion.ProcessTags | frontend/src/components/AskQuestion.jsx:35-42 | at most 5 tags, each non-empty, trimmed and free of commas |
| AskQuestion.BlankHasNoPieces | frontend/src/components/AskQuestion.jsx:36 | a blank field yields no non-empty piece, so the early return changes nothing |
| AskQuestion.ProcessTagsInOrder | frontend/src/components/AskQuestion.jsx:37-41 | the tags are the trimmed comma-separated pieces in input order, some left out |
| AskQuestion.ProcessTagsDropsOnlyPastLimit | frontend/src/components/AskQuestion.jsx:40-41 | a non-blank piece is left out only when 5 tags were already kept |
| AskQuestion.ProcessTagsRoundTrip | frontend/src/components/AskQuestion.jsx:35-42 | 1 to 5 trimmed, non-empty, comma-free tags joined with commas come back unchanged |
| AskQuestion.Submit | frontend/src/components/AskQuestion.jsx:44-82 | a blank title, then a blank or empty-editor description, then a missing token each stop with their message; otherwise the body has the trimmed title and description and the processed tags |
| AskQuestion.SentQuestionIsCreated | frontend/src/components/AskQuestion.jsx:78-82 | a body the form sends passes the create handler's checks: both texts present and not blank, every tag resolves, and the question keeps the trimmed texts |
| Home.FilterOf | frontend/src/components/Home.jsx:24 | an absent or empty filter reads as "newest" |
| Home.SearchText | frontend/src/components/Home.jsx:25 | an absent or empty search reads as no search |
| Home.FetchQueryReadBack | frontend/src/components/Home.jsx:40-52 | the server reads the request back as the page's own page, 10 per page, the unanswered filter exactly when it is selected, and the same search |
| Home.FilterChanged | frontend/src/components/Home.jsx:72-76 | a filter change goes back to page 1, selects the new filter and keeps the search |
| Home.PageChanged | frontend/src/components/Home.jsx:79-83 | a page change reads back as that page (0 as 1), with filter and search kept |
| Home.Searched | frontend/src/components/Home.jsx:86-91 | a search goes back to page 1, keeps the filter and searches for the trimmed query, or for nothing when it is blank |
| Home.FilterRange | frontend/src/components/Home.jsx:268-284 | of consecutive slots, the shown pages are an initial run |
| Home.PageButtonsShape | frontend/src/components/Home.jsx:268-284 | at most min(7, totalPages) consecutive pages from max(1, currentPage-3), each between 1 and totalPages |
| Home.CurrentPageHasButton | frontend/src/components/Home.jsx:268-284 | an existing current page always has its button |
| Home.FarPageHasNoButtons | frontend/src/components/Home.jsx:268-272 | a current page more than 3 past the last page shows no page button |
| Home.PagerOf | frontend/src/components/Home.jsx:256 | the controls are shown exactly when totalPages > 1 |
| Home.PagerLeadsToExistingPages | frontend/src/components/Home.jsx:259-292 | with the handler's pagination, for any non-zero limit, an enabled next button and every page button lead to an existing page, and an enabled previous button to a lower page ≥ 1 |
| Home.IndexOf | frontend/src/components/Home.jsx:106 | the first '>' of the text |
| Home.StripTags | frontend/src/components/Home.jsx:106 | stripping never lengthens the text or adds characters |
| Home.StripTagsLeavesNoTag | frontend/src/components/Home.jsx:106 | no '<' followed later by '>' is left |
| Home.StripTagsPlainText | frontend/src/components/Home.jsx:106 | text without markup is left unchanged |
| Home.StripTagsKeepsPlainPrefix | frontend/src/components/Home.jsx:106 | text before the first `<` is kept unchanged and stripping goes on after it |
| Home.StripTagsDropsTag | frontend/src/components/Home.jsx:106 | a `<`, text without `>` and the closing `>` are removed together, nothing else |
| Home.StripTagsIdempotent | frontend/src/components/Home.jsx:106 | stripping twice is stripping once |
| Home.StripTagsKeepsOrder | frontend/src/components/Home.jsx:106 | the result is the input with characters deleted, in order |
| Home.CreateExcerpt | frontend/src/components/Home.jsx:104-109 | the stripped text when it has at most maxLength characters; otherwise its first maxLength characters followed by "..." |
| Home.ExcerptHasNoTag | frontend/src/components/Home.jsx:104-109 | an excerpt shows no markup |

## Left out

- Password hashing (bcrypt) and token signing (JWT) are left out. The
  password check is a predicate parameter of `Login`, and the stored password
  stands for its hash.
- `populate` projections are left out. Responses carry ids and stored
  documents.
- Search is a literal, ASCII case-insensitive substring test. The source
  passes the text to MongoDB as a regular expression.
- Case folding is ASCII only. `trim` removes a fixed list of white-space code
  points rather than the whole Unicode space-separator class.
- `parseInt` is decimal only. The `0x` prefix and very long digit strings are
  not modelled.
- ListQuestions: the store's rejection of a negative `skip` is modelled as
  the 500 it leads to. A negative `limit` is modelled as the driver treats
  it: one batch of at most that many questions, with a `totalPages` of zero
  or less.
- Requests are atomic and sequential. The get-or-create race between
  concurrent requests is not modelled.
- Other failures are left out: MongoDB errors, the 500 catch-alls, and the
  duplicate-key errors the driver raises. The unique indexes are kept as a
  store invariant, and a save that would break one, or a schema rule, is
  modelled as a 500 with the store unchanged.
- CreateQuestion models `tags` as a list of strings. A request body whose
  `tags` is not an array is not modelled.
- CreateQuestion: a title or description of white space only creates the
  request's tags before the schema rejects the question (500), as in the
  source.
- `updatedAt` is set to `now` on every save of a document, whether or not a
  field changed.
- MongoDB's order among equal `createdAt` or counts, and the order of
  `$group` output, are not specified: the sort's contract says the result is
  ordered and a permutation of its input, and nothing about the order of
  elements that rank equally.
- Tag names are ordered by code point (`sort({ name: 1 })` without a
  collation).
- Login: an absent e-mail in the body is a user lookup that fails (401).
  MongoDB's handling of `{ email: undefined }` is not modelled.
- Logging (`console.log`/`console.error`) is left out.
- NewUser: string lengths are counted in characters (code points), while
  Mongoose's `minlength`/`maxlength` count UTF-16 code units. A password
  such as three characters outside the Basic Multilingual Plane passes the
  source's 6-unit minimum but not the model's, and a 500-character bio of
  such characters passes the model's maximum but not the source's.
- Register: the password minimum of 6 is checked in code points, not
  UTF-16 code units (see NewUser).
- UpdateProfile: the bio maximum of 500 is checked in code points, not
  UTF-16 code units (see NewUser).
- CreateExcerpt: the excerpt is cut after maxLength code points. The
  source's `substring` cuts after maxLength UTF-16 code units and can split
  a surrogate pair.
- The React views are left out: rendering, the `loading`/`message` state, and
  navigation with its timers. Submit takes the presence of a stored token as
  a parameter. The request and its answer are not modelled on the front end.
- `encodeURIComponent` and its decoding by the server are taken to cancel
  out.
- The front end's other components (dashboard, question detail, profile,
  sign-in and sign-up, header, landing) are not part of this model.
