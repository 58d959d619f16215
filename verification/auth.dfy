/**
 * `auth_api.py`: the admin login of the dashboard. The credentials are a
 * fixed map in the script; here they are a parameter.
 */
module Auth {
  import opened Wrappers
  import opened Text
  import opened Http
  import opened Marketing

  type Credentials = map<string, string>

  /** `authenticate_user`: the user name is a key and the password is its value. */
  function Authenticate(creds: Credentials, username: string, password: string): (ok: bool)
    ensures ok <==> (username, password) in creds.Items
  {
    assert (username, password) in creds.Items ==> username in creds && creds[username] == password;
    username in creds && creds[username] == password
  }

  datatype User = User(username: string, role: string)

  const Required := "Username and password are required"

  /**
   * The `POST` branch of `main`, given the parsed form. The user name is
   * escaped before the lookup, the password is compared as sent.
   */
  function Login(creds: Credentials, form: map<string, string>): (r: Reply<User>)
    ensures GetOrEmpty(form, "username") == "" || GetOrEmpty(form, "password") == "" ==> r == Err(Required)
    ensures r.Ok? <==> (GetOrEmpty(form, "username") != "" && GetOrEmpty(form, "password") != ""
      && Escape(GetOrEmpty(form, "username")) in creds
      && creds[Escape(GetOrEmpty(form, "username"))] == GetOrEmpty(form, "password"))
    ensures r.Ok? ==> r == Ok(Some("Login successful"), User(Escape(GetOrEmpty(form, "username")), "admin"))
    ensures !r.Ok? && r != Err(Required) ==> r == Err("Invalid username or password")
  {
    var username := Escaped(form, "username");
    var password := GetOrEmpty(form, "password");
    if username == "" || password == "" then Err(Required)
    else if Authenticate(creds, username, password) then Ok(Some("Login successful"), User(username, "admin"))
    else Err("Invalid username or password")
  }

  /** `main`: only `POST` logs in; `GET` and every other method are refused. */
  function Handle(creds: Credentials, req: Request): (r: Reply<User>)
    ensures req.verb == "OPTIONS" ==> r == Preflight
    ensures req.verb == "POST" ==> r == Login(creds, Form(req))
    ensures req.verb != "OPTIONS" && req.verb != "POST" ==> r == Bare(NotAllowed)
  {
    if req.verb == "OPTIONS" then Preflight
    else if req.verb == "POST" then Login(creds, Form(req))
    else Bare(NotAllowed)
  }

  /** Escaping a text with a markup character leaves an `&` in it. */
  lemma {:induction false} EscapeShowsMarkup(u: string, i: nat)
    requires i < |u| && IsMarkup(u[i])
    ensures '&' in Escape(u)
  {
    var head := EscapeChar(u[0]);
    var tail := Escape(u[1..]);
    assert Escape(u) == head + tail;
    if i == 0 {
      assert (head + tail)[0] == '&';
    } else {
      EscapeShowsMarkup(u[1..], i - 1);
      var k :| 0 <= k < |tail| && tail[k] == '&';
      assert (head + tail)[|head| + k] == '&';
    }
  }

  /**
   * When no stored user name contains `&`, a user name typed with a markup
   * character never logs in, whatever the password.
   */
  lemma MarkupNameNeverLogsIn(creds: Credentials, form: map<string, string>, i: nat)
    requires forall k :: k in creds ==> '&' !in k
    requires i < |GetOrEmpty(form, "username")| && IsMarkup(GetOrEmpty(form, "username")[i])
    ensures !Login(creds, form).Ok?
  {
    EscapeShowsMarkup(GetOrEmpty(form, "username"), i);
  }
}
