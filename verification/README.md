# Contact form submission pipeline

This project models the `Contact_Form` WordPress plugin class in Dafny and proves properties of the model. It covers the submission pipeline behind the `cf_custom_contact_form` shortcode:

- `contact_form_validation` checks the five raw POST fields. It adds errors to the object's `reg_errors` container, a `WP_Error`, and then echoes one error block per message in the container.
- `complete_contact_form` runs only when the container holds no message. It sends one mail to the admin address, writes one log line and echoes a success notice.
- `custom_contact_form_main` runs both steps when `$_POST['submit']` is set. Validation gets the raw values and the send step gets sanitised copies. In every case the function then renders the form, pre-filled with the raw posted values.

The project has three modules:

- `Php` (`php.dfy`) defines PHP byte strings, request fields that may be null, `empty` and `strlen`.
- `WpError` (`wp_error.dfy`) models the `WP_Error` container as the list of `add(code, message)` calls it has received. `get_error_messages()` is derived from that list: every message of the first code used, then every message of the second, and so on.
- `ContactForm` (`contact_form.dfy`) models the three operations and the object that carries `reg_errors` from one rendering to the next.

The host platform is a `Platform` value holding uninterpreted functions:

- `filter_var( …, FILTER_VALIDATE_EMAIL )`;
- `sanitize_text_field` and `sanitize_email`;
- `get_option( 'admin_email' )`.

Mail, logging and echoed output are recorded in an `Effects` value, not performed.

Behaviour of the code worth noting:

- **The error container is per object, not per request.** It is created once in the constructor (`includes/class-contact-form.php:83`) and never cleared. Every submission handled by the same object adds to it. One failing submission therefore blocks the mail of every later submission on that object (`ContactForm.NextMail`).
- **Validation is not idempotent on one container.** Validating the same input again adds its errors again (`ContactForm.RevalidateAccumulates`). On a new container, validation always yields exactly the failing checks' messages (`ContactForm.ValidateFresh`).
- **The success path is reachable.** The send step is gated on `count(get_error_messages()) < 1`, not on `is_wp_error`. So a valid submission on a fresh object is mailed (`ContactForm.AcceptedOnNewObject`). The `is_wp_error` test before the display loop always holds, so the loop always runs and echoes nothing when the container is empty.
- **An idle rendering does not always show an empty form.** Without the submit flag, the form is pre-filled with whatever the other POST fields hold.
- **"Blank" means PHP `empty`.** Only null, `""` and `"0"` are empty. A single space is not, and neither is any string of two or more bytes (`Php.EmptyValues`). The message length is counted in bytes.
- **`get_error_messages()` groups messages by code.** It does not list them in the order they were added (`WpError.GroupedNotChronological`). On a new container, a single validation's messages do come out in check order (`ContactForm.ValidateFresh`). On a container that already holds errors they need not: a new message under an old code joins that code's group.

## Model

| member | source | states |
|---|---|---|
| WpError.New | includes/class-contact-form.php:83 | a new container holds no message and no code |
| WpError.Add | includes/class-contact-form.php:234 | `add` appends the message to its code's list, registers a new code last, leaves the earlier calls in place and raises the message count by one; a message under a new code comes last in `get_error_messages()` |
| WpError.AddLeavesOtherCodes | includes/class-contact-form.php:238 | `add` under one code leaves every other code's messages unchanged |
| WpError.CountIsCalls | includes/class-contact-form.php:263 | `count(get_error_messages())` equals the number of `add` calls made on the container |
| WpError.AddAll | includes/class-contact-form.php:233-245 | a series of `add` calls extends the container by exactly those calls and raises the count by their number |
| WpError.AddAllMessagesFor | includes/class-contact-form.php:233-245 | after a series of `add` calls, a code's messages are its old messages followed by the new calls' messages under that code |
| WpError.AddAllFreshCodes | includes/class-contact-form.php:249 | `add` calls under distinct new codes appear in `get_error_messages()` after the old messages, in call order |
| WpError.GroupedNotChronological | includes/class-contact-form.php:249 | after `add(a)`, `add(b)` and `add(a)`, `get_error_messages()` lists both `a` messages before the `b` message |
| Php.EmptyValues | includes/class-contact-form.php:233 | an empty value has at most one byte, the only one-byte empty string is "0", and a single space is not empty, so the presence check is not a blank check |
| WpError.CodesListed | includes/class-contact-form.php:249 | the codes `get_error_messages()` walks are exactly the codes some `add` call used |

| ContactForm.FindingsOrdered | includes/class-contact-form.php:232-245 | the errors one validation adds follow the check order field, message_length, email, so no code is added twice |
| ContactForm.Validate | includes/class-contact-form.php:232-245 | validation only appends to the container: the old calls stay, followed by the failing checks' errors in check order |
| ContactForm.FilterFindings | includes/class-contact-form.php:232-245 | a code is added exactly once when its check fails and not at all otherwise |
| ContactForm.ValidateRule | includes/class-contact-form.php:232-245 | under each code, validation appends that code's message exactly when its check fails and leaves the list unchanged otherwise |
| ContactForm.ValidateField | includes/class-contact-form.php:233-235 | one `field` error is added if any of the five fields is empty, however many are, and none otherwise |
| ContactForm.ValidateMessageLength | includes/class-contact-form.php:237-239 | one `message_length` error is added exactly when the message is under 4 bytes (null counts as 0) |
| ContactForm.ValidateEmail | includes/class-contact-form.php:241-245 | one `email` error is added exactly when the email is non-empty and fails the syntax check |
| ContactForm.EmptyMessageFailsTwice | includes/class-contact-form.php:233-239 | an empty message yields both a `field` and a `message_length` error |
| ContactForm.EmptyEmailSkipsSyntax | includes/class-contact-form.php:233-245 | an empty email yields a `field` error and never an `email` error |
| ContactForm.ValidateFresh | includes/class-contact-form.php:232-249 | on a new container, `get_error_messages()` after validation lists exactly the failing checks' messages in check order |
| ContactForm.RevalidateAccumulates | includes/class-contact-form.php:232-245 | validating the same submission twice on one container adds its errors twice; the count stays the same only if every check passes |
| ContactForm.ErrorBlocks | includes/class-contact-form.php:247-257 | the display loop echoes one error block per message in the container, in `get_error_messages()` order |
| ContactForm.Complete | includes/class-contact-form.php:262-273 | when the container has no message: exactly one mail to the admin address with the given subject and body, one log line "Email sent from " plus the email, and the "Email sended" notice; otherwise no mail, no log line and no output |
| ContactForm.Construct | includes/class-contact-form.php:83 | a new object's container is empty under every code |
| ContactForm.Advance | includes/class-contact-form.php:277-284 | a rendering only ever adds to the container; the container is empty afterwards exactly when it was empty before and the request is idle or passes all three checks |
| ContactForm.Handle | includes/class-contact-form.php:276-298 | an idle request changes nothing, sends nothing and renders only the form; a submission validates the raw values into the container and echoes its messages; at most one mail, sent exactly when the container was empty and the submission passes, carrying the sanitised subject and message; its log line names the sanitised email; the form always comes last, pre-filled with the raw values |
| ContactForm.AcceptedOnNewObject | includes/class-contact-form.php:262-298 | on a new object, a submission that passes validation records no error, sends one mail with its sanitised subject and message, logs its sanitised email, and renders the notice followed by the form |
| ContactForm.JoDoePasses | includes/class-contact-form.php:232-245 | the example submission Jo / Doe / Hi / Hello! / jo@doe.com passes validation when the platform accepts its email |
| ContactForm.ValidSubmission | includes/class-contact-form.php:262-298 | on a new object, when the platform accepts its email and the sanitisers leave its values unchanged, the example submission sends one mail with subject "Hi" and body "Hello!", logs "Email sent from jo@doe.com", and renders the notice and the form with no error |
| ContactForm.After | includes/class-contact-form.php:83 | across several renderings on one object, the container only grows |
| ContactForm.AfterClean | includes/class-contact-form.php:232-263 | after several renderings the container is empty exactly when it started empty and every submission passed validation |
| ContactForm.NextMail | includes/class-contact-form.php:263 | the next rendering on an object sends mail exactly when it is a passing submission and every earlier submission on the object passed too |

## Left out

- `add_contact_form` (`includes/class-contact-form.php:191-230`): the HTML it echoes is not modelled. The form is a `Form` output event carrying the raw values it would be pre-filled with. HTML escaping is not modelled either, since the source applies none. `$_SERVER['REQUEST_URI']` is not modelled.
- `add_short_code` (`includes/class-contact-form.php:300-307`): registering the shortcode and its output buffering are glue. The model's `Effects.output` is the buffered output.
- `log` (`includes/class-contact-form.php:315-317`): `error_log( print_r( … ) )` of a string writes that string, so the model records the line itself.
- The hook loader, the locale loader, the activator, the deactivator and the admin/public hooks are not part of this model. None of them touches the submission pipeline.
- `WP_Error` beyond `add`, `get_error_messages()` and `get_error_messages(code)` is left out. This covers error data, `remove` and `get_error_code`. The plugin uses none of them.
- The internals of `filter_var`, `sanitize_text_field`, `sanitize_email` and `get_option` are not modelled; they are uninterpreted platform functions.
- A failing `wp_mail` is not modelled: the source ignores its result.
- PHP diagnostics are not modelled. `custom_contact_form_main` reads the five fields without a default (`includes/class-contact-form.php:278-290`); the model reads an absent field as null. The undefined-array-key warning that PHP raises for it is not modelled. Neither is the deprecation notice for `strlen(null)` at line 237. With `display_errors` on, both would appear in the buffered shortcode output.
- Array values in `$_POST` are not modelled. Each field is a byte string or absent (read as null).
- `ContactForm.ErrorBlocks`: the `is_wp_error` test around the display loop is treated as always true. The container is always a `WP_Error` object.
