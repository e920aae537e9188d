# Friend-request lifecycle of the friendships service

This project models the friend-request core of the friendships microservice:
the `SolicitudDeAmistad` (friend request) records and the three controller
handlers that act on them. `sendFriendRequest` sends a request.
`acceptFriendRequest` and `rejectFriendRequest` answer one.

- `requests.dfy` (module `Requests`) holds the data. It defines a request with
  a sender, a recipient and a free-text status. The controller writes only
  three status values: `"Pendiente"`, `"Aceptada"` and `"Rechazada"`. The store
  is a `map` from request identifier to record, plus a counter that hands out
  fresh identifiers. It also defines the store-wide invariant: every status is
  one of the three, and at most one request exists per ordered
  (sender, recipient) pair.
- `lifecycle.dfy` (module `Lifecycle`) gives the three operations as pure
  transitions. Each returns either the new store or a typed error: `Duplicate`
  or `NotFoundOrNotPending`. It also defines one call (`Apply`), a sequence of
  calls (`Run`), and the relation that says how a record may legally change
  (`Evolves`).
- `controller.dfy` (module `Controller`) gives the send handler as a
  procedure. Its duplicate lookup is a loop over the stored requests. The
  procedure is proved to compute exactly the send transition. The accept and
  reject handlers are a single lookup by identifier, so the lifecycle's
  `Accept` and `Reject` model them directly.
- `properties.dfy` (module `Properties`) proves the invariants over any
  sequence of calls, that answered requests are terminal, and two end-to-end
  call sequences.

The code blocks a new request when any request exists for the same ordered
pair, whatever its status. So the invariant proved is: at most one request per
ordered pair, in any status.

## Model

| member | source | states |
|---|---|---|
| Lifecycle.Submit | backend/services/friendships/controllers/friendships.controllers.js:11-37 | If any request (in any status) exists for the same ordered pair, the call fails with `Duplicate`. Otherwise exactly one record is added: sender and recipient as given, status `Pendiente`, under an identifier not used before. Every existing record is unchanged. |
| Lifecycle.Accept | backend/services/friendships/controllers/friendships.controllers.js:47-64 | Fails with the merged `NotFoundOrNotPending` error exactly when the identifier is missing or its status is not `Pendiente`. Otherwise it changes only that record's status, to `Aceptada`, keeping its sender and recipient. Every other record is unchanged. |
| Lifecycle.Reject | backend/services/friendships/controllers/friendships.controllers.js:74-91 | Same contract as accept, except the status becomes `Rechazada`. |
| Lifecycle.Apply | backend/services/friendships/controllers/friendships.controllers.js:17-20 | A failed call (duplicate, or missing / not pending) leaves the store exactly as it was, and no call removes a record. |
| Lifecycle.Run | backend/services/friendships/controllers/friendships.controllers.js:11-91 | No sequence of calls deletes a record. |
| Controller.FindOne | backend/services/friendships/controllers/friendships.controllers.js:13-16 | The lookup on (sender, recipient) finds a matching request whenever one exists. Any identifier it returns is stored and matches the ordered pair. |
| Controller.SendFriendRequest | backend/services/friendships/controllers/friendships.controllers.js:11-28 | Doing the pair lookup, refusing on a hit, then inserting a pending record gives the same result as the `Submit` transition. |
| Properties.StepPreservesValid | backend/services/friendships/controllers/friendships.controllers.js:13-28 | Any one call from a valid store gives a valid store: all statuses stay among the three values, and no ordered pair gets a second request. |
| Properties.StepEvolves | backend/services/friendships/controllers/friendships.controllers.js:51-55 | After any one call, each earlier record still exists with the same sender and recipient. Its status either stays the same or moves from `Pendiente` to `Aceptada` or `Rechazada`. |
| Properties.RunPreservesValid | backend/services/friendships/controllers/friendships.controllers.js:13-28 | Any sequence of calls from a valid store ends in a valid store. |
| Properties.RunFromEmptyIsValid | backend/services/friendships/controllers/friendships.controllers.js:13-28 | Start from the empty collection and make any sequence of send / accept / reject calls. Every status is then `Pendiente`, `Aceptada` or `Rechazada`, and each ordered pair has at most one request. |
| Properties.RunEvolves | backend/services/friendships/controllers/friendships.controllers.js:22-28 | Over any sequence of calls, no record is deleted and no record's sender or recipient changes. A status changes only from `Pendiente` to `Aceptada` or `Rechazada`. |
| Properties.AnsweredIsFinal | backend/services/friendships/controllers/friendships.controllers.js:51-54 | An accepted or rejected request stays exactly as it is through any later sequence of calls. |
| Properties.AnsweredIsRefused | backend/services/friendships/controllers/friendships.controllers.js:76-80 | After any sequence of calls, accepting or rejecting an already answered request fails with `NotFoundOrNotPending`. |
| Properties.DuplicateCheckIsOrdered | backend/services/friendships/controllers/friendships.controllers.js:13-19 | In any collection that holds a request from a to b and none from b to a, sending from b to a succeeds, while sending another from a to b is refused with `Duplicate`. |
| Properties.AnswerThenAnswerFails | backend/services/friendships/controllers/friendships.controllers.js:78-82 | Once an accept or reject succeeds, a following accept and a following reject of the same request both fail. |
| Properties.SubmitAcceptRejectScenario | backend/services/friendships/controllers/friendships.controllers.js:22-55 | Sending u1→u2 on an empty collection creates a pending request. Accepting it succeeds and leaves it `Aceptada`. Then rejecting it is refused with `NotFoundOrNotPending`. |

## Left out

- HTTP handling is not modelled. This covers Express request and response objects, status codes (201, 400, 404, 500) and JSON messages. The model covers only the effect on the store and which error occurs. After an early refusal, the source's next `.then` still tries to send a second response. That sequencing is not modelled.
- Store faults are not modelled. These are the promise `catch` paths that answer 500 with the raw error message, called the internal store error. Mongoose and the database are outside the model, and a store fault is not a lifecycle decision.
- The collection is abstracted. It is a `map` from request identifier to record. The database's object-id generation is replaced by a counter that always gives a fresh identifier.
- The field-name casing mismatch is not modelled. The controller uses `IdRemitente` / `IdDestinatario`, but the schema declares `IDRemitente` / `IDDestinatario` (backend/services/friendships/models/SolicitudDeAmistadSchema.js:4-15). Both schema fields are required, and the insert never sets them. So, as written, saving a new request fails validation under every strict-mode setting, and the send handler never stores a request. It answers 500, or 400 when the lookup's filter is stripped and any record exists. The model follows the controller's evident intent: the lookup matches on sender and recipient, and the insert stores them.
- User-id normalisation is not modelled. The schema types sender and recipient as object ids, so two client strings that convert to the same object id name the same user (the same hex id in upper and lower case, for example). `UserId` stands for the id after that conversion, and the model compares ids by plain equality.
- Schema-level validation is not modelled. This covers the `required` and `trim` options and user ids being valid references to users. Sending a request to oneself is allowed, because the source does not check it.
- Concurrency is not modelled. The source has a race between check and insert when two sends for the same pair run at once. The model is sequential.
- Route wiring is left out. Accept and reject are both registered on the same GET path, and a second route file imports handlers that do not exist. The application bootstrap is left out too: middleware, CORS, file upload and static files.
- The friendship records (`Amistad`) and their value-object schemas are left out. They have no behaviour. Accepting a request never creates a friendship record, so the model does not create one either.
