/**
 * The page selector of the application: the name held in the page state,
 * the view rendered for it, and the navigation buttons that set it.
 */
module Pages {

  /** The four views the application can show. */
  datatype View = HomeView | UploadView | AboutView | CitationsView

  /** The page name a navigation button stores for each view. */
  function PageName(v: View): (name: string)
  {
    match v
    case HomeView => "home"
    case UploadView => "upload"
    case AboutView => "about"
    case CitationsView => "citations"
  }

  /** The view rendered for a page name: the named view for the four known names, home for anything else. */
  function RenderPage(page: string): (v: View)
    ensures v == HomeView <==> page != "upload" && page != "about" && page != "citations"
    ensures v != HomeView ==> PageName(v) == page
  {
    match page
    case "home" => HomeView
    case "upload" => UploadView
    case "about" => AboutView
    case "citations" => CitationsView
    case _ => HomeView
  }

  /** Rendering the name stored by a view's button gives back that view. */
  lemma RenderPageName(v: View)
    ensures RenderPage(PageName(v)) == v
  {
  }

  /** The application shell: it holds the name of the current page. */
  class App {
    var page: string

    /** The view rendered for the current page. */
    function Render(): (v: View)
      reads this
    {
      RenderPage(page)
    }

    /** The application opens on the home page. */
    constructor ()
      ensures page == "home" && Render() == HomeView
    {
      page := "home";
    }

    /** Any page name can be stored; an unknown one renders the home view. */
    method SetPage(name: string)
      modifies this
      ensures page == name && Render() == RenderPage(name)
    {
      page := name;
    }

    /** A navigation button: it stores its view's name, so that view is rendered. */
    method Navigate(target: View)
      modifies this
      ensures page == PageName(target) && Render() == target
    {
      RenderPageName(target);
      SetPage(PageName(target));
    }
  }

  /** Navigating to the upload view renders it; an unknown name falls back to home. */
  method NavigationSession()
  {
    var app := new App();
    app.SetPage("upload");
    assert app.Render() == UploadView;
    app.SetPage("nonsense");
    assert app.Render() == HomeView;
  }
}
