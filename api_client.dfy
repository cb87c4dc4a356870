/** The choice of the API base URL the frontend talks to. */
module ApiClient {
  import opened Wrappers

  const BackendPort: string := "9247"
  const Fallback: string := "http://localhost:9247"

  /** The characters `String.prototype.trim` removes (the ASCII and common Unicode white space and line ends). */
  predicate IsJsWhitespace(c: char) {
    c == '\t' || c == '\n' || c == '\U{000B}' || c == '\U{000C}' || c == '\r' || c == ' '
    || c == '\U{00A0}' || c == '\U{1680}' || ('\U{2000}' <= c <= '\U{200A}') || c == '\U{2028}' || c == '\U{2029}'
    || c == '\U{202F}' || c == '\U{205F}' || c == '\U{3000}' || c == '\U{FEFF}'
  }

  /** Empty after trimming. */
  predicate IsBlank(s: string) {
    forall i :: 0 <= i < |s| ==> IsJsWhitespace(s[i])
  }

  /** `window.location`'s protocol (with its colon) and hostname. */
  datatype Location = Location(protocol: string, hostname: string)

  /** Where the code runs: without a window there is neither a runtime override nor a location. */
  datatype Window = NoWindow | BrowserWindow(override: Option<string>, location: Location)

  /** A set value that is not blank after trimming. */
  predicate Usable(v: Option<string>) {
    v.Some? && !IsBlank(v.value)
  }

  /**
   * `resolveBasePath`: the build-time URL, else the runtime override, else the page's host on the backend
   * port, else the localhost fallback; a usable value is returned untrimmed.
   */
  function ResolveBasePath(envUrl: Option<string>, window: Window): (url: string)
    ensures Usable(envUrl) ==> url == envUrl.value
    ensures !Usable(envUrl) && window.BrowserWindow? && Usable(window.override) ==> url == window.override.value
    ensures !Usable(envUrl) && window.BrowserWindow? && !Usable(window.override) ==>
              url == window.location.protocol + "//" + window.location.hostname + ":" + BackendPort
    ensures !Usable(envUrl) && window.NoWindow? ==> url == Fallback
  {
    if Usable(envUrl) then envUrl.value
    else if window.BrowserWindow? && Usable(window.override) then window.override.value
    else if window.BrowserWindow? then window.location.protocol + "//" + window.location.hostname + ":" + BackendPort
    else Fallback
  }

  /** The base path is never blank. */
  lemma {:induction false} NeverBlank(envUrl: Option<string>, window: Window)
    ensures !IsBlank(ResolveBasePath(envUrl, window))
  {
    var url := ResolveBasePath(envUrl, window);
    if !Usable(envUrl) && !(window.BrowserWindow? && Usable(window.override)) {
      if window.BrowserWindow? {
        var l := window.location;
        assert url[|l.protocol|] == '/';
      } else {
        assert url[0] == 'h';
      }
    }
  }

  /** A blank build-time URL is skipped, as if it were unset. */
  lemma {:induction false} BlankBuildUrlIsIgnored(blank: string, window: Window)
    requires IsBlank(blank)
    ensures ResolveBasePath(Some(blank), window) == ResolveBasePath(None, window)
  {
  }
}
