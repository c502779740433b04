# Dluzirna: a verified model of the debt store and its access rules

Dluzirna is a small Rails application for debt notifications. An admin
records a debt owed by a customer. The application e-mails the customer a
link that carries a secret token. Anyone holding the link can open it, but
only the customer the debt is linked to sees its details. Signed-in customers
list their own debts. Admins list, search, edit and delete all debts and see
a dashboard.

This project models that core as sequential Dafny and proves properties of
it. The model covers:

- **The debt record.** Validations, the status enum, the secure-token loop,
  `overdue?` and the list scopes: `Debts` (debt.dfy). It relies on two helper
  modules:
  - the e-mail format (`EmailFormat`);
  - PostgreSQL `ILIKE` (`SqlLike`).
- **The user record.** The role enum, the role scopes and the session lookup:
  `Users`.
- **The tables.** `Store.Database` is a class holding:
  - the debts and users tables;
  - the mails handed to the mailer;
  - the id sequence.

  Each write is a method. Each method keeps `Store.StoreInvariant`: the
  validations hold for every row, ids and tokens are unique, both user links
  point at stored users, and every amount fits its column.
- **The CanCan ability table.** The rules are data. A decision function
  follows CanCan's last-matching-rule semantics: `Ability`. No action
  consults the table: each controller guards itself with `ensure_admin` or
  `ensure_customer` and scoped finders, so the table's lemmas state what the
  rules would grant.
- **The controllers.** Each is a module of functions (reads) and methods
  (writes):
  - `Application`: locale, authentication, post-login path, and the
    AccessDenied handler, which no request reaches;
  - `AdminBase`;
  - `AdminDebts`;
  - `AdminDashboard`;
  - `CustomerDebts`;
  - `PublicDebts`;
  - `Registrations`.
- **The creation service.** `DebtCreationService`: insert, send, mark
  notified, all in one transaction.
- **The Rack::Attack rules.** The safelist, the blocklist, the throttle keys
  and their limits: `RackAttack`.

Some values become explicit parameters, because nothing in the model runs a
clock, a random generator or a mail server:

- "now" and "today" are integers: ticks and day numbers.
- Money is held in cents.
- The signed-in user is an `Option<User>`.
- The values SecureRandom would produce are a finite sequence `draws`.
- Whether a mail send raises is a boolean `mailFails`.
- Rack::Attack's counters and its ban list are inputs.

A controller action's answer is a `Web.Response`: a redirect with a flash
message, a rendered view with its HTTP status, or the error status of an
exception that nothing rescues (400, 404 or 500).

The send runs inside the same `ActiveRecord::Base.transaction` as the insert
(app/services/debt_creation_service.rb:8-12), so a raising `deliver_now`
rolls the debt back; `DebtCreationService.Call` proves that a failed send
leaves no debt and no mail (see Findings). The PostgreSQL id sequence keeps
the value it reached when a transaction rolls back.

Form values arrive already typed: integers, strings or null (see "Casting
of form values" under Left out). A blank status is assigned as nil, so
validation still decides first and the NOT NULL column refuses the row only
at the INSERT. A user reference is cast as an integer column casts it and
is refused only by its foreign key when the row is written. The page number
follows Ruby's `String#to_i`: leading whitespace, an optional sign, then the
leading digits, with 0 when there are none. The status filter of the admin
index reads a non-name with `to_i` only when it starts like a number;
otherwise the condition is NULL and selects no row.

## Model

| member | source | states |
|---|---|---|
| Debts.StatusValue | app/models/debt.rb:12 | each status is stored as an integer from 0 to 4, and reading that integer back gives the same status |
| Debts.StatusFromValue | app/models/debt.rb:12 | exactly the integers 0 to 4 are statuses |
| Debts.StatusName | app/models/debt.rb:12 | the name of each status reads back as that status |
| Debts.StatusParam | app/models/debt.rb:12 | assigning a status accepts its name or its number; nil and a blank string are assigned as nil; anything else is refused |
| Debts.NewDebt | db/migrate/20250820182647_create_debts.rb:9 | a new debt is pending, has no token and links to no user |
| Debts.AssignAttributes | app/controllers/admin/debts_controller.rb:34 | assignment fails exactly on an unknown attribute or a status outside the enum; a user reference is never refused here. Every named field takes the cast of its value (amount, due date, e-mail, description, token, status, both links); id and timestamps are kept. |
| Debts.AssignNothing | app/controllers/admin/debts_controller.rb:34 | assigning an empty hash changes nothing |
| Debts.AssignIdempotent | app/controllers/admin/debts_controller.rb:34 | assigning the same hash twice gives the same record as once |
| Debts.AssignKeepsUnnamed | app/controllers/admin/debts_controller.rb:34 | token, user links, status, amount, due date, customer e-mail and description are unchanged unless the hash names them |
| Debts.ValidIff | app/models/debt.rb:7-10 | a debt is valid exactly when: the amount is present and positive; the due date is present; the e-mail is well formed; the token is present; and no other row holds the token |
| Debts.NonPositiveAmountRejected | app/models/debt.rb:8 | an amount of 0 or below is always an error, and the debt is invalid |
| Debts.PositiveAmountAccepted | app/models/debt.rb:8 | changing the amount of a valid debt to any positive value keeps it valid |
| Debts.MalformedEmailRejected | app/models/debt.rb:9 | a customer_email that fails the format makes the debt invalid |
| Debts.GenerateSecureToken | app/models/debt.rb:28-30 | an already unique token is kept. Otherwise the token is replaced by drawn values until one is unique. If any draw is unique, the result is unique. |
| Debts.TokenUniqueCases | app/models/debt.rb:32-34 | `token_unique?` is false for a blank token and for a stored token, and true for any other present token |
| Debts.OverdueBoundary | app/models/debt.rb:22-24 | a debt due today or later is not overdue; a debt due yesterday is |
| Debts.OverdueScope | app/models/debt.rb:14 | keeps exactly the debts due before today |
| Debts.WithStatus | app/models/debt.rb:12 | keeps exactly the debts in the given status |
| Debts.ForCustomer | app/models/debt.rb:16 | keeps exactly the debts whose e-mail equals the argument |
| Debts.SearchByEmail | app/models/debt.rb:18 | keeps exactly the debts whose e-mail matches `ILIKE '%q%'` |
| Debts.SearchIsCaseInsensitiveSubstring | app/models/debt.rb:18 | for a query without pattern characters, the search keeps exactly the debts whose e-mail contains the query, ignoring case |
| Debts.PercentSearchKeepsAll | app/models/debt.rb:18 | the query is not escaped, so searching "%" keeps every debt |
| Debts.InsertByRecency | app/models/debt.rb:15 | inserting into a newest-first list keeps it newest first and adds exactly that row |
| Debts.Recent | app/models/debt.rb:15 | the result is ordered by created_at descending and is a permutation of its input |
| Debts.RecentSameRows | app/models/debt.rb:15 | the ordering contains exactly the rows it was given |
| EmailFormat.EmailIsPresent | app/models/debt.rb:9 | a well-formed address is never blank |
| EmailFormat.DomainHasNoAt | app/models/debt.rb:9 | the domain part of an address holds no '@' |
| EmailFormat.AcceptsSampleAddress | app/models/debt.rb:9 | "jan.novak@example.com" is accepted |
| EmailFormat.RejectsWithoutAt | app/models/debt.rb:9 | a string without '@' is rejected |
| EmailFormat.RejectsSampleInvalid | app/models/debt.rb:9 | "invalid-email" is rejected |
| SqlLike.SurroundedLiteral | app/models/debt.rb:18 | for a literal q, the pattern `%q%` matches exactly the texts that contain q |
| SqlLike.ILikeIsCaseInsensitiveContains | app/models/debt.rb:18 | for a literal q, `ILIKE '%q%'` holds exactly when the lower-cased text contains the lower-cased q |
| Users.ExactlyOneRole | app/models/user.rb:8-10 | a user whose role is set is either an admin or a customer, never both |
| Users.Admins | app/models/user.rb:12 | keeps exactly the admins |
| Users.Customers | app/models/user.rb:13 | keeps exactly the customers |
| Users.Confirmed | app/models/user.rb:14 | keeps exactly the users with confirmed_at set |
| Users.RoleScopesPartition | app/models/user.rb:12-13 | on rows whose roles are set, `admins` and `customers` split the table: together they are a permutation of it |
| Users.FindUser | app/models/user.rb:17 | finds a stored user with that id, or reports that none exists |
| Users.SerializeFromSession | app/models/user.rb:16-19 | gives a user exactly when a row has that key and the salt is nil or equals the row's salt |
| Users.SessionUserIsThatRow | app/models/user.rb:16-19 | with distinct ids, the session lookup gives exactly the user with that id, subject to the salt |
| Store.NotificationFor | app/mailers/debt_notification_mailer.rb:2-11 | the mail is addressed to the debt's customer_email and links its token |
| Store.Without | app/models/debt.rb:10 | the rows other than the one with the given id, which is the scope of the uniqueness check |
| Store.FindById | app/controllers/admin/debts_controller.rb:53 | finds the row with that id, or reports that none exists |
| Store.FindByToken | app/controllers/public_debts_controller.rb:19 | finds a row holding that token, or reports that none does |
| Store.NullifyCustomer | app/models/user.rb:5 | clears customer_user_id exactly where it points at the user; nothing else changes |
| Store.StoredRowsAreValid | app/models/debt.rb:7-10 | under the store invariant, every stored row passes validation against the rows beside it |
| Store.AppendKeepsInvariant | app/services/debt_creation_service.rb:25 | inserting a valid row under a fresh id keeps the store invariant |
| Store.ReplaceKeepsInvariant | app/controllers/admin/debts_controller.rb:34 | writing back a row that is valid against the others keeps the store invariant |
| Store.SetStatusKeepsInvariant | app/controllers/public_debts_controller.rb:28 | an `update_columns` of status and viewed_at keeps the store invariant, although it skips validation |
| Store.WithoutKeepsInvariant | app/controllers/admin/debts_controller.rb:46 | deleting rows keeps the store invariant |
| Store.WithoutRemovesOne | app/controllers/admin/debts_controller.rb:46 | deleting the id of a stored row removes that row and no other |
| Store.DestroyUserKeepsInvariant | app/models/user.rb:5-6 | destroying a user who created no debt, with the customer links nullified, keeps the store invariant |
| Store.NullifyDetachesOnly | app/models/user.rb:5 | after nullifying, no debt links to the user, and every debt is still there, changed only in that link |
| Store.Database.constructor | db/migrate/20250820182647_create_debts.rb:3-21 | an empty debts table over a valid users table satisfies the invariant |
| Store.Database.Insert | app/services/debt_creation_service.rb:25 | appends the row under the next id, stamps both timestamps and keeps the invariant |
| Store.Database.Write | app/controllers/admin/debts_controller.rb:34 | replaces exactly the row with that id and keeps the invariant |
| Store.Database.SetStatusColumns | app/controllers/public_debts_controller.rb:28 | replaces the row with one where only status and viewed_at differ |
| Store.Database.Delete | app/controllers/admin/debts_controller.rb:46 | removes the rows with that id and keeps the invariant |
| Store.Database.Deliver | app/services/debt_creation_service.rb:29 | appends the mail to the deliveries and leaves the tables as they are |
| Store.Database.RollbackDebts | app/services/debt_creation_service.rb:8-12 | the debts table goes back to its snapshot; the id sequence keeps the value it reached |
| Store.Database.DestroyUser | app/models/user.rb:5-6 | refused, with nothing changed, exactly when the user created some debt. Otherwise the user's customer links are nullified and the user is removed. |
| Ability.Rules | app/models/ability.rb:6-31 | which branch's rules apply: the admin's five, the customer's seven, or the six for a visitor or a user without a role |
| Ability.LastDecision | app/models/ability.rb:9-30 | allowed only if some relevant rule allows; with no relevant rule, denied |
| Ability.LastDeciderWins | app/models/ability.rb:9-30 | the last relevant rule decides |
| Ability.AdminManagesDebts | app/models/ability.rb:9-12 | an admin may do every action on any debt and on the Debt class, `send_manual_email` included |
| Ability.CustomerReadsOnlyOwn | app/models/ability.rb:16-18 | a customer may read, index or show a debt exactly when its customer_user_id is theirs |
| Ability.CustomerClassLevelRead | app/models/ability.rb:16 | a customer may read at the class level, as CanCan answers for a conditional `can` |
| Ability.CustomerNeverWritesDebts | app/models/ability.rb:20-21 | a customer may never create, edit, update, destroy, modify or send mail for a debt |
| Ability.CustomerUpdatesOnlySelf | app/models/ability.rb:17 | a customer may edit or update a user record exactly when it is their own |
| Ability.GuestReadsNoDebt | app/models/ability.rb:23-29 | a visitor, or the placeholder user without a role, may not read any debt |
| Ability.GuestPublicPages | app/models/ability.rb:24-27 | a visitor may show public debts, read the homepage and access registration, but may not enumerate tokens |
| Ability.OneBranchPerUser | app/models/ability.rb:9-23 | for a user with a role, the admin table applies exactly to an admin, the customer table with their id exactly to a customer, and the visitor table never |
| Application.AvailableLocale | config/application.rb:15 | only "cs" and "en" name available locales |
| Application.SetLocaleAsWritten | app/controllers/application_controller.rb:10-13 | with no parameter the locale is cs. An available parameter becomes the locale. Any other value raises `InvalidLocale` (see Findings). |
| Application.UnsupportedLocaleRaises | app/controllers/application_controller.rb:11 | `?locale=de` and an empty locale raise |
| Application.SetLocale | app/controllers/application_controller.rb:10-13 | the corrected filter: the locale is en exactly when the parameter is "en", and cs otherwise |
| Application.SetLocaleAgreesWhenDefined | app/controllers/application_controller.rb:10-13 | the corrected filter agrees with the written one wherever that one does not raise, and falls back to cs where it raises |
| Application.Authenticate | app/controllers/application_controller.rb:5 | with nobody signed in, sign-in is demanded exactly where the filter applies, via a redirect to sign-in |
| Application.InheritedFilterSparesOnlyShow | app/controllers/application_controller.rb:5 | the inherited filter spares only show. The customer controller demands it everywhere, and the public page never demands it. |
| Application.AfterSignInPath | app/controllers/application_controller.rb:20-26 | an admin lands on the admin root and everyone else on root |
| Application.Authorize | app/controllers/application_controller.rb:28-30 | were an ability check refused, the handler would redirect to root with "Access denied." |
| Application.ForeignDebtDenied | app/controllers/application_controller.rb:28-30 | were an action to `authorize! :show` another customer's debt, the customer would be redirected to root with "Access denied."; no action does (see `CustomerDebts.NotFoundIsUniform`) |
| AdminBase.EnsureAdmin | app/controllers/admin/base_controller.rb:6-8 | only a signed-in admin passes; anyone else goes to root with "Access denied." |
| AdminBase.AdminFilters | app/controllers/admin/base_controller.rb:2 | an admin action proceeds exactly for a signed-in admin |
| AdminBase.AdminFiltersOutcomes | app/controllers/admin/base_controller.rb:2-7 | a visitor is sent to sign in, except on show, where the admin check answers "Access denied."; a customer always gets "Access denied." |
| CustomerDebts.EnsureCustomer | app/controllers/customer/debts_controller.rb:15-17 | only a signed-in customer passes; anyone else goes to root with "Access denied." |
| CustomerDebts.CustomerFilters | app/controllers/customer/debts_controller.rb:2-3 | a visitor goes to sign in, a non-customer to root, and only a customer proceeds |
| CustomerDebts.LinkedDebts | app/controllers/customer/debts_controller.rb:7 | exactly the debts whose customer_user_id is the user's id |
| CustomerDebts.IndexListsOwnDebts | app/controllers/customer/debts_controller.rb:7 | the index lists exactly the customer's linked debts, newest first, each once |
| CustomerDebts.ShowOwnDebt | app/controllers/customer/debts_controller.rb:20 | a debt linked to the customer opens |
| CustomerDebts.NotFoundIsUniform | app/controllers/customer/debts_controller.rb:19-23 | the answer is "Debt not found." exactly when no debt with that id is linked to the customer. That covers someone else's debt, an unassigned debt and a missing id alike. |
| CustomerDebts.EmailMatchWithoutLinkInvisible | app/controllers/customer/debts_controller.rb:7-20 | a debt addressed to the customer's e-mail but not linked to them is neither listed nor shown |
| CustomerDebts.Isolation | app/controllers/customer/debts_controller.rb:6-23 | what a customer sees depends only on their own linked debts |
| PublicDebts.TrackedView | app/controllers/public_debts_controller.rb:24-30 | a pending debt becomes viewed, with viewed_at set to now. Any other debt is unchanged, and no other field changes. |
| PublicDebts.TrackTwice | app/controllers/public_debts_controller.rb:27 | a second view of a debt changes nothing |
| PublicDebts.Disclose | app/controllers/public_debts_controller.rb:6-14 | details are shown exactly to the signed-in customer the debt is linked to. Everyone else gets no data and the flag off. |
| PublicDebts.TokenAloneDisclosesNothing | app/controllers/public_debts_controller.rb:7-13 | an admin, a visitor or another customer holding the token sees no data |
| PublicDebts.TrackedStore | app/controllers/public_debts_controller.rb:19-30 | an unknown token leaves the table unchanged |
| PublicDebts.VisitChangesOnlyThatRow | app/controllers/public_debts_controller.rb:28 | a visit changes only the row holding the token, and in it only status and viewed_at |
| PublicDebts.SecondVisitChangesNothing | app/controllers/public_debts_controller.rb:27-29 | visiting twice leaves the table as the first visit left it |
| PublicDebts.VisitKeepsInvariant | app/controllers/public_debts_controller.rb:28 | a visit keeps the store invariant |
| PublicDebts.Show | app/controllers/public_debts_controller.rb:2-30 | an unknown token redirects to root with "Page not found." and changes nothing. Otherwise the row is tracked first, for any visitor, and the page discloses from the tracked row. |
| DebtCreationService.Draft | app/services/debt_creation_service.rb:25 | the built debt carries the calling admin as admin_user, and is refused exactly when the assignment is |
| DebtCreationService.DraftIsPending | app/services/debt_creation_service.rb:25 | without a status in the parameters, the draft is pending |
| DebtCreationService.Prepare | app/services/debt_creation_service.rb:24-26 | `create!` up to the INSERT: a refused assignment raises; an invalid draft is RecordInvalid, whatever its status; a ready row is the draft with a unique token, valid, within its columns and linked to stored users |
| DebtCreationService.Call | app/services/debt_creation_service.rb:7-35 | on success, exactly one new row (notified, notified_at now, a unique token) and exactly one mail for it. A failed validation gives RecordInvalid; any failure, a raising send included, leaves no debt and no mail (see Findings). |
| DebtCreationService.Persist | app/services/debt_creation_service.rb:8-12 | insert, send, mark notified; a raising send rolls the insert back |
| DebtCreationService.CallKeepingDebt | spec/integration/debt_email_integration_spec.rb:56-66 | a valid draft with a usable token is created and stays stored whether or not the send raises; without the send it keeps its status and has no notified_at |
| DebtCreationService.PersistKeepingDebt | spec/integration/debt_email_integration_spec.rb:56-66 | insert, then send and mark notified; a raising send leaves the inserted row as it was and records no mail |
| AdminDebts.Permit | app/controllers/admin/debts_controller.rb:57 | keeps exactly the permitted keys the hash has, with their values |
| AdminDebts.DebtParams | app/controllers/admin/debts_controller.rb:56-58 | the parameters are missing (400) exactly when the debt hash is absent or empty; otherwise they are the permitted part |
| AdminDebts.WhitelistProtectsColumns | app/controllers/admin/debts_controller.rb:57 | whatever the form sends, the token, the user links, the id and the timestamps are not assigned |
| AdminDebts.PermittedAssignmentFailsOnlyOnStatus | app/controllers/admin/debts_controller.rb:57 | after permitting, assignment fails exactly on a status outside the enum; a nil or blank status is assigned as nil and never fails |
| AdminDebts.StatusCondition | app/controllers/admin/debts_controller.rb:10 | an enum name selects that status; any other string selects the status whose number is its `to_i`, provided it starts like a number and that number is 0 to 4; otherwise nothing is selected |
| AdminDebts.StatusConditionForms | app/controllers/admin/debts_controller.rb:10 | a status is selected alike by its name and by its number |
| AdminDebts.LeadingNumeralSelects | app/controllers/admin/debts_controller.rb:10 | whitespace, a sign, digits and any tail (as in " 1", "+1", "1abc", "1.9") select the status numbered by the signed leading digits |
| AdminDebts.Matching | app/controllers/admin/debts_controller.rb:10-11 | a debt is selected exactly when it meets the status condition and the search condition that were given |
| AdminDebts.PageNumber | app/controllers/admin/debts_controller.rb:7 | a missing page or one that does not start like a number is 0; a page of digits is that number |
| AdminDebts.PageNumberReadsLikeToI | app/controllers/admin/debts_controller.rb:7 | a page of whitespace, a sign, digits and any tail is read as its signed leading digits |
| AdminDebts.PageOf | app/controllers/admin/debts_controller.rb:7-8 | page n holds at most 25 rows, starting at offset 25·(n−1); pages below 1 count as 1 |
| AdminDebts.IndexDebts | app/controllers/admin/debts_controller.rb:4-12 | the index shows at most 25 debts |
| AdminDebts.IndexShowsMatchesNewestFirst | app/controllers/admin/debts_controller.rb:5-11 | every listed debt is stored and meets both conditions, and the page is newest first |
| AdminDebts.FirstPageListsAllMatches | app/controllers/admin/debts_controller.rb:7-11 | when at most 25 debts match, the first page lists exactly them |
| AdminDebts.UnknownStatusListsNothing | app/controllers/admin/debts_controller.rb:10 | a status that is not a name and whose `to_i` is no number of the enum, or that does not start like a number, lists nothing |
| AdminDebts.SearchMeansSubstring | app/controllers/admin/debts_controller.rb:11 | a search without pattern characters matches exactly the e-mails that contain it, ignoring case |
| AdminDebts.Index | app/controllers/admin/debts_controller.rb:4-12 | an admin gets the list |
| AdminDebts.ShowOrEdit | app/controllers/admin/debts_controller.rb:52-54 | for an admin, the answer is 404 exactly when no debt has that id; otherwise the page or the form is rendered |
| AdminDebts.New | app/controllers/admin/debts_controller.rb:17-19 | an admin gets the form for a new pending debt without a token |
| AdminDebts.Create | app/controllers/admin/debts_controller.rb:21-28 | a created debt leads to its page with the notice, and is notified and e-mailed. RecordInvalid renders the form with 422, as does any draft with an invalid amount, due date or e-mail; missing parameters give 400; every failure leaves the store and the mail untouched. |
| AdminDebts.SavedRow | app/controllers/admin/debts_controller.rb:34 | the saved row is the old row, or the assigned values stamped with now |
| AdminDebts.AttemptUpdate | app/controllers/admin/debts_controller.rb:33-34 | the lookup (404) and the parameters (400) are checked first. The update is invalid exactly when the assigned record fails validation, and raises exactly when assignment fails or the valid record does not fit its columns. A saved row keeps its token, links and creation time, carries the sent status, amount, due date, e-mail and description, and passes validation. |
| AdminDebts.UpdateEffect | app/controllers/admin/debts_controller.rb:33-43 | an update either leaves the table as it was or writes back exactly the saved row, and sends at most one mail |
| AdminDebts.InvalidUpdateChangesNothing | app/controllers/admin/debts_controller.rb:33-42 | an update that fails validation renders edit with 422, changes nothing and sends nothing |
| AdminDebts.MailOnlyAfterSavedUpdate | app/controllers/admin/debts_controller.rb:34-37 | one mail is sent, for the saved row, exactly when the update succeeded and send_notification was "1"; otherwise none |
| AdminDebts.UpdateKeepsIdentity | app/controllers/admin/debts_controller.rb:57 | after any update, the row keeps its token, user links and creation time, and keeps its status unless one was sent |
| AdminDebts.UpdateKeepsInvariant | app/controllers/admin/debts_controller.rb:34 | every update leaves a table that satisfies the store invariant |
| AdminDebts.Update | app/controllers/admin/debts_controller.rb:33-43 | the response, the new table and the mails sent are exactly those of `UpdateEffect` |
| AdminDebts.DestroyEffect | app/controllers/admin/debts_controller.rb:45-48 | destroy sends no mail |
| AdminDebts.DestroyRemovesExactlyTarget | app/controllers/admin/debts_controller.rb:46 | an admin's destroy removes exactly the target debt, and the count drops by one |
| AdminDebts.DestroyUnknownChangesNothing | app/controllers/admin/debts_controller.rb:52-54 | an unknown id answers 404 and deletes nothing |
| AdminDebts.Destroy | app/controllers/admin/debts_controller.rb:45-48 | the response and the new table are exactly those of `DestroyEffect`, and no mail is sent |
| AdminDashboard.RecentTen | app/controllers/admin/dashboard_controller.rb:6 | at most ten debts, newest first, a prefix of the full recent ordering |
| AdminDashboard.Index | app/controllers/admin/dashboard_controller.rb:2-7 | the dashboard is rendered exactly for an admin |
| AdminDashboard.CountWithStatus | app/controllers/admin/dashboard_controller.rb:4 | a status count never exceeds the total |
| AdminDashboard.StatusCountsSumToTotal | app/controllers/admin/dashboard_controller.rb:3-4 | on stored rows, whose status is never nil, the five status counts add up to the number of debts |
| AdminDashboard.CountsMeanWhatTheySay | app/controllers/admin/dashboard_controller.rb:3-5 | the total is the number of debts. The pending and overdue counts are at most the total, and each is zero exactly when no debt is pending or overdue. |
| AdminDashboard.RecentListBounds | app/controllers/admin/dashboard_controller.rb:6 | at most ten stored debts, newest first; with ten debts or fewer, all of them |
| AdminDashboard.RecentTenAreNewest | app/controllers/admin/dashboard_controller.rb:6 | no debt left off the list is newer than one on it |
| Registrations.DeviseKeys | app/controllers/users/registrations_controller.rb:18-22 | Devise's own keys include e-mail and password, and never role |
| Registrations.Sanitize | app/controllers/users/registrations_controller.rb:18-22 | keeps exactly the submitted keys that are permitted, with their values |
| Registrations.RoleNeverPermitted | app/controllers/users/registrations_controller.rb:18-22 | with the override, no submitted role survives, on sign-up or on account update |
| Registrations.ApplicationVersionPermitsRole | app/controllers/application_controller.rb:15-18 | the overridden version would have let a submitted role through |
| Registrations.Forced | app/controllers/users/registrations_controller.rb:26-30 | on create, the role is customer and every other entry is kept; on other actions, the hash is unchanged |
| Registrations.RoleParam | app/models/user.rb:8 | "admin" or 0 casts to admin, "customer" or 1 to customer |
| Registrations.BuiltRole | app/controllers/users/registrations_controller.rb:26-30 | a hash without role builds a user without one |
| Registrations.BuildResource | app/controllers/users/registrations_controller.rb:26-30 | writes the role into the hash in place, as `Forced` describes, and builds the user from the result |
| Registrations.SignUpBuildsCustomer | app/controllers/users/registrations_controller.rb:19-30 | a web sign-up always builds a customer, whatever was submitted |
| Registrations.OtherActionsKeepHash | app/controllers/users/registrations_controller.rb:28 | other actions pass the hash through unchanged |
| Registrations.AuthenticateScope | app/controllers/users/registrations_controller.rb:1 | Devise's own `authenticate_scope!`, which `Devise::RegistrationsController` prepends to destroy, lets only a signed-in user through |
| Registrations.EnsureAdminForDestroy | app/controllers/users/registrations_controller.rb:12-16 | only an admin passes; anyone else is sent to the account page with the Czech refusal |
| Registrations.DestroyFilters | app/controllers/users/registrations_controller.rb:3 | destroy proceeds exactly for a signed-in admin; a signed-in non-admin is refused |
| Registrations.Destroy | app/controllers/users/registrations_controller.rb:5-8 | a refused request changes nothing. An admin's own account is deleted, with customer links nullified, unless they created debts; then the answer is 500 and nothing changes. |
| RackAttack.Limit | config/initializers/rack_attack.rb:8-27 | every throttle has a positive limit: 5, 5, 3 and 10 |
| RackAttack.Period | config/initializers/rack_attack.rb:8-27 | the periods: an hour, 20 minutes, an hour and a minute |
| RackAttack.EmailsKey | config/initializers/rack_attack.rb:8-10 | keyed by the IP exactly for a POST whose path contains "/debts" |
| RackAttack.SubmittedEmail | config/initializers/rack_attack.rb:15 | the e-mail field of a user hash; for a user string containing "email", that word itself; nothing for an absent user or an array |
| RackAttack.LoginsKey | config/initializers/rack_attack.rb:13-17 | keyed by the submitted e-mail exactly for a POST to "/users/sign_in" whose e-mail is not blank |
| RackAttack.RegistrationsKey | config/initializers/rack_attack.rb:20-22 | keyed by the IP exactly for a POST to "/users" |
| RackAttack.DebtAccessKey | config/initializers/rack_attack.rb:25-27 | keyed by the IP exactly for a path containing "/pohledavky/", whatever the method |
| RackAttack.FirstHalting | config/initializers/rack_attack.rb:7-27 | the first throttle, in declaration order, whose block raises or that keys the request and is over its limit |
| RackAttack.Decide | config/initializers/rack_attack.rb:3-34 | the safelist wins, then the blocklist; a throttled request was keyed by that throttle and had reached its limit; a raise comes only from a sign-in POST with an array user parameter |
| RackAttack.Respond | config/initializers/rack_attack.rb:36-39 | only an allowed request reaches the application, every throttled request gets the fixed 429, and a raise ends in 500 |
| RackAttack.LocalhostAlwaysPasses | config/initializers/rack_attack.rb:3-5 | exactly 127.0.0.1 and ::1 are safelisted, and they are never blocked or throttled |
| RackAttack.ThrottledIff | config/initializers/rack_attack.rb:7-27 | past the safelist and the blocklist, a request raises exactly when it is a sign-in POST with an array user parameter; any other request is throttled exactly when some throttle keys it and has reached its limit, and allowed otherwise |
| RackAttack.RaisingSignInHaltsAtLogins | config/initializers/rack_attack.rb:7-17 | for a sign-in POST with an array user parameter, the e-mail throttle never keys it and the logins throttle is the first to halt |
| RackAttack.ArrayUserParamFails | config/initializers/rack_attack.rb:15 | `user[]=x` posted to "/users/sign_in" makes `Array#[]('email')` raise, and the answer is 500 |
| RackAttack.UnkeyedNeverThrottles | config/initializers/rack_attack.rb:7-27 | a throttle that gives no key never throttles |
| RackAttack.ThrottledResponsesAreUniform | config/initializers/rack_attack.rb:37-39 | every throttled response is the same 429 with the same text |
| RackAttack.SuspiciousAdminBlocked | config/initializers/rack_attack.rb:30-34 | an admin path requested without a user agent is blocked from any address but localhost |
| RackAttack.DebtAccessCoversAdminPaths | config/initializers/rack_attack.rb:25-27 | "/admin/pohledavky/7" counts against the debt-access throttle too |
| RackAttack.StringUserParamKeysByWord | config/initializers/rack_attack.rb:15 | a user parameter that is a string containing "email" is keyed by the word "email" |

## Left out

- Token randomness: SecureRandom's values are the finite parameter `draws`. If every draw collides, the loop stops with a non-unique token and validation rejects the record. The model does not claim the loop ends.
- Debts.GenerateSecureToken: states uniqueness only when some draw is unique, because the model cannot show that random draws eventually produce a fresh token.
- Concurrency: the race between `token_unique?` and the insert is out of scope. Operations run one at a time, and the unique index is the invariant `Store.StoreInvariant` keeps.
- Rack::Attack internals: the counters, time windows, the cache and Fail2Ban's bookkeeping are library code. Counts and banned IPs are inputs, and the periods are constants that no decision uses.
- Routing: paths are strings given with the request. The routes declare Czech paths and a locale scope (config/routes.rb:11-40), so the model does not decide which real paths the throttle rules reach.
- Mailer: the mail is composed from a template and sent over SMTP. The model keeps the recipient, the token and the debt id of each mail, and whether the send raised.
- `schedule_notification_email` (app/models/debt.rb:36-38) is never called, so it is not modelled.
- Locale: controller actions assume the `locale` parameter is absent or names an available locale. Any other value makes `set_locale` raise before the action runs (see Findings), which the controller models do not show.
- Devise: sign-in, passwords, confirmation and session storage are not modelled. The signed-in user is an input.
  - Its filters appear only as gates: `authenticate_user!` and the `authenticate_scope!` it prepends to destroy.
  - Its flash messages appear as their translation keys.
- CanCan's matching engine is modelled only as far as the rules here need it: default aliases, `manage`, symbol subjects, hash conditions and class-level checks. The condition `customer_user_id: { not: id }` is read as "differs from id", and a nil link matches neither form. That is the rule's evident meaning; CanCan's in-memory matcher may instead treat the nested hash as an association condition and raise. Its code is not part of this model, and no request reaches the rule because no action calls `authorize!`.
- Ability.Rules: the placeholder `User.new` is assumed to have no role. The users table migration is not part of this model, so a column default for the role is not visible.
- Kaminari: only the offset and limit of a page are modelled, with `to_i` of the page parameter. `to_i` is modelled for ASCII whitespace, a sign, ASCII digits and single underscores between digits.
- Browser check: `allow_browser versions: :modern` (app/controllers/application_controller.rb:2) is not modelled. Requests carry no user agent for it, and every response assumes a supported browser; an old browser would get 406 before any action runs.
- Rich text: the description is an opaque string.
- Case folding in ILIKE and `blank?` is ASCII only.
- Casting of form values: the form parameters arrive typed (integers, strings, null). An amount or due date that is not already a number is taken as nil, where ActiveRecord would parse "100.50" as a decimal and "2025-01-01" as a date.
- Registrations.BuiltRole: a role that is not a name of the enum gives no role here, whereas ActiveRecord raises ArgumentError for it. On the create path the role is always forced, so this case cannot arise there.
- Debts.Recent: rows with equal created_at may come in any order in PostgreSQL. The model fixes one order and states only the descending order and the permutation.
- Dates and times are integers. Time zones, `Date.current` and formatting are not modelled.
- The Rails logger line in registrations `destroy` is not modelled.

## Findings

| source | as written | input that shows it | evidently intended | confidence | as-written member | corrected member |
|---|---|---|---|---|---|---|
| app/controllers/application_controller.rb:11-12 | `I18n.locale = params[:locale] \|\| I18n.default_locale`. Assigning a locale that is not available raises `I18n::InvalidLocale`, so the fallback on line 12 is never reached. | `?locale=de`, or `?locale=` (an empty string) | an unsupported locale falls back to cs | not executed | Application.SetLocaleAsWritten, Application.UnsupportedLocaleRaises | Application.SetLocale, Application.SetLocaleAgreesWhenDefined |
| app/services/debt_creation_service.rb:8-12 | The send runs inside the transaction that inserts the debt, so a `deliver_now` that raises rolls the debt back and the error reaches the controller as a 500. The integration test at spec/integration/debt_email_integration_spec.rb:56-66 expects no error and one stored debt; it stubs `DebtNotificationMailer.delay`, which the service never calls. | a valid debt form submitted while SMTP raises (`mailFails` true) | a failed send keeps the created debt | not executed | DebtCreationService.Call, DebtCreationService.Persist | DebtCreationService.CallKeepingDebt, DebtCreationService.PersistKeepingDebt |
